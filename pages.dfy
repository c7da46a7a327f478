/** `PagesService`: the four fixed site pages, created on first read and
    edited field by field. */
module Pages {
  import opened Common
  import opened Sequences
  import Text

  const AllowedSlugs: seq<string> := ["home", "about", "services", "contact"]

  const InvalidSlugMessage := "Slug invalide. Slugs autorisés: " + Text.Join(AllowedSlugs, ", ")

  /** A row of the `pages` table; the contents and the image are nullable. */
  datatype Page = Page(
    id: string,
    slug: string,
    contentFr: Option<string>,
    contentEn: Option<string>,
    contentEs: Option<string>,
    image: Option<string>,
    createdAt: int)

  /** `UpdatePageDto`: every field optional (None = absent). */
  datatype UpdatePageDto = UpdatePageDto(
    contentFr: Option<string>,
    contentEn: Option<string>,
    contentEs: Option<string>,
    image: Option<string>)

  /** Unique ids (primary key) and unique slugs (unique index). */
  predicate ValidStore(pages: seq<Page>) {
    forall i, j :: 0 <= i < j < |pages| ==> pages[i].id != pages[j].id && pages[i].slug != pages[j].slug
  }

  function IndexOfSlug(pages: seq<Page>, slug: string): Option<nat> {
    FirstIndex(pages, (p: Page) => p.slug == slug)
  }

  /** `create({ slug })`: a page with only its slug set. */
  function NewPage(id: string, slug: string, now: int): Page {
    Page(id, slug, None, None, None, None, now)
  }

  /** `Object.assign(page, dto)`: the DTO's fields overwrite, the others,
      the id and the slug stay. */
  function Merge(page: Page, dto: UpdatePageDto): (r: Page)
    ensures r.id == page.id && r.slug == page.slug && r.createdAt == page.createdAt
    ensures r.contentFr == (if dto.contentFr.Some? then dto.contentFr else page.contentFr)
    ensures r.contentEn == (if dto.contentEn.Some? then dto.contentEn else page.contentEn)
    ensures r.contentEs == (if dto.contentEs.Some? then dto.contentEs else page.contentEs)
    ensures r.image == (if dto.image.Some? then dto.image else page.image)
  {
    page.(contentFr := OverwriteNullable(page.contentFr, dto.contentFr),
          contentEn := OverwriteNullable(page.contentEn, dto.contentEn),
          contentEs := OverwriteNullable(page.contentEs, dto.contentEs),
          image := OverwriteNullable(page.image, dto.image))
  }

  /** `findBySlug`: BadRequest for a slug outside the four; the stored page;
      or a new page with that slug, inserted. */
  function ApplyFindBySlug(pages: seq<Page>, slug: string, id: string, now: int): (Result<Page>, seq<Page>) {
    if slug !in AllowedSlugs then (Err(BadRequest(InvalidSlugMessage)), pages)
    else match IndexOfSlug(pages, slug)
      case Some(i) => (Ok(pages[i]), pages)
      case None => (Ok(NewPage(id, slug, now)), pages + [NewPage(id, slug, now)])
  }

  /** `update`: the page `findBySlug` yields, with the DTO merged in, saved
      in its place. */
  function ApplyUpdate(pages: seq<Page>, slug: string, dto: UpdatePageDto, id: string, now: int)
    : (Result<Page>, seq<Page>)
  {
    if slug !in AllowedSlugs then (Err(BadRequest(InvalidSlugMessage)), pages)
    else match IndexOfSlug(pages, slug)
      case Some(i) => (Ok(Merge(pages[i], dto)), pages[i := Merge(pages[i], dto)])
      case None => (Ok(Merge(NewPage(id, slug, now), dto)), pages + [Merge(NewPage(id, slug, now), dto)])
  }

  // ------------------------------------------------------------- properties

  /** Only the four slugs are served; any other is a BadRequest that leaves
      the store alone, for reading and for updating. */
  lemma OnlyAllowedSlugs(pages: seq<Page>, slug: string, dto: UpdatePageDto, id: string, now: int)
    ensures ApplyFindBySlug(pages, slug, id, now).0.Err? <==> slug !in AllowedSlugs
    ensures ApplyUpdate(pages, slug, dto, id, now).0.Err? <==> slug !in AllowedSlugs
    ensures slug !in AllowedSlugs ==>
      && ApplyFindBySlug(pages, slug, id, now) == (Err(BadRequest(InvalidSlugMessage)), pages)
      && ApplyUpdate(pages, slug, dto, id, now) == (Err(BadRequest(InvalidSlugMessage)), pages)
  {
  }

  /** Get-or-create: a stored page comes back untouched; a missing one is
      created with that slug and nothing else. */
  lemma FindBySlugGetOrCreate(pages: seq<Page>, slug: string, id: string, now: int)
    requires slug in AllowedSlugs
    ensures var (r, after) := ApplyFindBySlug(pages, slug, id, now);
      && r.Ok? && r.value.slug == slug
      && ((exists p :: p in pages && p.slug == slug) ==> r.value in pages && after == pages)
      && ((forall p :: p in pages ==> p.slug != slug) ==>
            r.value == Page(id, slug, None, None, None, None, now) && after == pages + [r.value])
  {
    if forall p :: p in pages ==> p.slug != slug {
      assert forall k :: 0 <= k < |pages| ==> pages[k] in pages;
    }
  }

  /** Reading a page twice changes the store at most once: the second read
      returns the same page and inserts nothing. */
  lemma {:induction false} FindBySlugIdempotent(pages: seq<Page>, slug: string, id1: string, now1: int, id2: string, now2: int)
    ensures var (r1, after1) := ApplyFindBySlug(pages, slug, id1, now1);
      ApplyFindBySlug(after1, slug, id2, now2) == (r1, after1)
  {
    var (r1, after1) := ApplyFindBySlug(pages, slug, id1, now1);
    if slug in AllowedSlugs && IndexOfSlug(pages, slug).None? {
      var found := IndexOfSlug(after1, slug);
      assert after1[|pages|].slug == slug;
      assert found.Some?;
      assert found.value == |pages|;
    }
  }

  /** Reading keeps at most one page per slug (the unique index), provided
      the new row's id is fresh, and afterwards the slug has its page. */
  lemma FindBySlugKeepsValid(pages: seq<Page>, slug: string, id: string, now: int)
    requires ValidStore(pages)
    requires forall p :: p in pages ==> p.id != id
    ensures var after := ApplyFindBySlug(pages, slug, id, now).1;
      && ValidStore(after)
      && (slug in AllowedSlugs ==> exists p :: p in after && p.slug == slug)
  {
    var after := ApplyFindBySlug(pages, slug, id, now).1;
    if slug in AllowedSlugs && IndexOfSlug(pages, slug).None? {
      forall i, j | 0 <= i < j < |after|
        ensures after[i].id != after[j].id && after[i].slug != after[j].slug
      {
        if j == |pages| { assert after[i] in pages; }
      }
      assert after[|pages|] in after;
    } else if slug in AllowedSlugs {
      assert pages[IndexOfSlug(pages, slug).value] in pages;
    }
  }

  /** `update` is `findBySlug` followed by the merge, saved over the page
      `findBySlug` returned; the slug, the id and the absent fields keep
      their values. */
  lemma UpdateIsFindThenMerge(pages: seq<Page>, slug: string, dto: UpdatePageDto, id: string, now: int)
    requires ValidStore(pages)
    requires forall p :: p in pages ==> p.id != id
    ensures var (found, store) := ApplyFindBySlug(pages, slug, id, now);
      var (r, after) := ApplyUpdate(pages, slug, dto, id, now);
      && (found.Err? ==> (r, after) == (found, store))
      && (found.Ok? ==> r == Ok(Merge(found.value, dto))
                        && |after| == |store|
                        && (forall k :: 0 <= k < |store| ==>
                              after[k] == if store[k].slug == slug then Merge(found.value, dto) else store[k]))
  {
    var (found, store) := ApplyFindBySlug(pages, slug, id, now);
    if found.Ok? {
      FindBySlugKeepsValid(pages, slug, id, now);
      var i := IndexOfSlug(store, slug);
      if IndexOfSlug(pages, slug).None? {
        assert store[|pages|].slug == slug;
        forall k | 0 <= k < |pages| ensures store[k].slug != slug { }
      } else {
        var j := IndexOfSlug(pages, slug).value;
        forall k | 0 <= k < |pages| && k != j ensures pages[k].slug != slug {
          if k < j { assert pages[k].slug != pages[j].slug; } else { assert pages[j].slug != pages[k].slug; }
        }
      }
    }
  }

  // ------------------------------------------------------------------ state

  /** The service with its repository of pages. */
  class PagesService {
    var pages: seq<Page>

    constructor(initial: seq<Page>)
      requires ValidStore(initial)
      ensures pages == initial
    {
      pages := initial;
    }

    method FindBySlug(slug: string, id: string, now: int) returns (r: Result<Page>)
      requires ValidStore(pages)
      requires forall p :: p in pages ==> p.id != id
      modifies this
      ensures ValidStore(pages)
      ensures (r, pages) == ApplyFindBySlug(old(pages), slug, id, now)
    {
      FindBySlugKeepsValid(pages, slug, id, now);
      if slug !in AllowedSlugs {
        return Err(BadRequest(InvalidSlugMessage));
      }
      var found := IndexOfSlug(pages, slug);
      if found.Some? {
        return Ok(pages[found.value]);
      }
      var page := NewPage(id, slug, now);
      pages := pages + [page];
      r := Ok(page);
    }

    method Update(slug: string, dto: UpdatePageDto, id: string, now: int) returns (r: Result<Page>)
      requires ValidStore(pages)
      requires forall p :: p in pages ==> p.id != id
      modifies this
      ensures ValidStore(pages)
      ensures (r, pages) == ApplyUpdate(old(pages), slug, dto, id, now)
    {
      ghost var before := pages;
      UpdateIsFindThenMerge(before, slug, dto, id, now);
      r := FindBySlug(slug, id, now);
      if r.Err? {
        assert (r, pages) == ApplyFindBySlug(before, slug, id, now);
        assert (r, pages) == ApplyUpdate(before, slug, dto, id, now);
        return;
      }
      FindBySlugGetOrCreate(before, slug, id, now);
      var page := Merge(r.value, dto);
      assert r.value in pages;
      var i := IndexOfSlug(pages, slug).value;
      ghost var store := pages;
      pages := pages[i := page];
      r := Ok(page);
      forall k | 0 <= k < |store| ensures pages[k] == if store[k].slug == slug then page else store[k] {
        if k < i { assert store[k].slug != store[i].slug; }
        if k > i { assert store[i].slug != store[k].slug; }
      }
      assert ApplyFindBySlug(before, slug, id, now) == (Ok(store[i]), store);
      assert |pages| == |ApplyUpdate(before, slug, dto, id, now).1|;
      assert r == ApplyUpdate(before, slug, dto, id, now).0;
      assert pages == ApplyUpdate(before, slug, dto, id, now).1;
    }
  }
}
