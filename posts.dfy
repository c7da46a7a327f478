/** `PostsService`: news posts in three languages, with a publication status
    and a flag for the home-page carousel. */
module Posts {
  import opened Common
  import opened Sequences

  datatype PostStatus = Draft | Published

  /** A row of the `posts` table. */
  datatype Post = Post(
    id: string,
    titleFr: string,
    titleEn: string,
    titleEs: string,
    contentFr: string,
    contentEn: string,
    contentEs: string,
    image: Option<string>,
    showInCarousel: bool,
    status: PostStatus,
    createdAt: int)

  /** `CreatePostDto`: titles and contents required, the rest optional. */
  datatype CreatePostDto = CreatePostDto(
    titleFr: string,
    titleEn: string,
    titleEs: string,
    contentFr: string,
    contentEn: string,
    contentEs: string,
    image: Option<string>,
    showInCarousel: Option<bool>,
    status: Option<PostStatus>)

  /** `UpdatePostDto`: every field of the create DTO, optional. */
  datatype UpdatePostDto = UpdatePostDto(
    titleFr: Option<string>,
    titleEn: Option<string>,
    titleEs: Option<string>,
    contentFr: Option<string>,
    contentEn: Option<string>,
    contentEs: Option<string>,
    image: Option<string>,
    showInCarousel: Option<bool>,
    status: Option<PostStatus>)

  function NotFoundMessage(id: string): string {
    "Post avec l'ID " + id + " non trouvé"
  }

  /** Unique ids (primary key). */
  predicate ValidStore(posts: seq<Post>) {
    forall i, j :: 0 <= i < j < |posts| ==> posts[i].id != posts[j].id
  }

  function IndexOfId(posts: seq<Post>, id: string): Option<nat> {
    FirstIndex(posts, (p: Post) => p.id == id)
  }

  function CreatedAt(p: Post): int { p.createdAt }

  /** `create({ ...dto, status: dto.status || DRAFT })`; the carousel flag
      takes its column default (false) when absent, the image null. */
  function NewPost(dto: CreatePostDto, id: string, now: int): Post {
    Post(id, dto.titleFr, dto.titleEn, dto.titleEs, dto.contentFr, dto.contentEn, dto.contentEs,
         dto.image,
         Overwrite(false, dto.showInCarousel),
         Overwrite(Draft, dto.status),
         now)
  }

  /** `Object.assign(post, dto)`: the DTO's fields overwrite, the others,
      the id and the creation time stay. */
  function Merge(post: Post, dto: UpdatePostDto): (r: Post)
    ensures r.id == post.id && r.createdAt == post.createdAt
    ensures r.titleFr == (if dto.titleFr.Some? then dto.titleFr.value else post.titleFr)
    ensures r.titleEn == (if dto.titleEn.Some? then dto.titleEn.value else post.titleEn)
    ensures r.titleEs == (if dto.titleEs.Some? then dto.titleEs.value else post.titleEs)
    ensures r.contentFr == (if dto.contentFr.Some? then dto.contentFr.value else post.contentFr)
    ensures r.contentEn == (if dto.contentEn.Some? then dto.contentEn.value else post.contentEn)
    ensures r.contentEs == (if dto.contentEs.Some? then dto.contentEs.value else post.contentEs)
    ensures r.image == (if dto.image.Some? then dto.image else post.image)
    ensures r.showInCarousel == (if dto.showInCarousel.Some? then dto.showInCarousel.value else post.showInCarousel)
    ensures r.status == (if dto.status.Some? then dto.status.value else post.status)
  {
    post.(titleFr := Overwrite(post.titleFr, dto.titleFr),
          titleEn := Overwrite(post.titleEn, dto.titleEn),
          titleEs := Overwrite(post.titleEs, dto.titleEs),
          contentFr := Overwrite(post.contentFr, dto.contentFr),
          contentEn := Overwrite(post.contentEn, dto.contentEn),
          contentEs := Overwrite(post.contentEs, dto.contentEs),
          image := OverwriteNullable(post.image, dto.image),
          showInCarousel := Overwrite(post.showInCarousel, dto.showInCarousel),
          status := Overwrite(post.status, dto.status))
  }

  // ---------------------------------------------------------------- queries

  /** `findAll(status?)`: the posts with that status, or all posts, each
      once, newest first. */
  function FindAll(posts: seq<Post>, status: Option<PostStatus>): (r: seq<Post>)
    ensures NewestFirst(r, CreatedAt)
    ensures forall p :: p in r <==> p in posts && (status.None? || p.status == status.value)
    ensures forall p :: multiset(r)[p] == if status.None? || p.status == status.value then multiset(posts)[p] else 0
    ensures status.None? ==> multiset(r) == multiset(posts)
  {
    SortNewest(Filter(posts, (p: Post) => status.None? || p.status == status.value), CreatedAt)
  }

  /** `findCarousel`: exactly the published posts flagged for the carousel,
      newest first. */
  function FindCarousel(posts: seq<Post>): (r: seq<Post>)
    ensures NewestFirst(r, CreatedAt)
    ensures forall p :: p in r <==> p in posts && p.showInCarousel && p.status == Published
    ensures forall p :: multiset(r)[p] == if p.showInCarousel && p.status == Published then multiset(posts)[p] else 0
  {
    SortNewest(Filter(posts, (p: Post) => p.showInCarousel && p.status == Published), CreatedAt)
  }

  /** `findOne`: the post with that id, or NotFound. */
  function FindOne(posts: seq<Post>, id: string): (r: Result<Post>)
    ensures r.Ok? ==> r.value in posts && r.value.id == id
    ensures r.Err? <==> forall p :: p in posts ==> p.id != id
    ensures r.Err? ==> r.error == NotFound(NotFoundMessage(id))
  {
    match IndexOfId(posts, id)
    case None => Err(NotFound(NotFoundMessage(id)))
    case Some(i) => Ok(posts[i])
  }

  // ------------------------------------------------------------ transitions

  function ApplyCreate(posts: seq<Post>, dto: CreatePostDto, id: string, now: int): (Post, seq<Post>) {
    (NewPost(dto, id, now), posts + [NewPost(dto, id, now)])
  }

  /** `update`: NotFound, or the post merged with the DTO, saved in place. */
  function ApplyUpdate(posts: seq<Post>, id: string, dto: UpdatePostDto): (Result<Post>, seq<Post>) {
    match IndexOfId(posts, id)
    case None => (Err(NotFound(NotFoundMessage(id))), posts)
    case Some(i) => (Ok(Merge(posts[i], dto)), posts[i := Merge(posts[i], dto)])
  }

  /** `remove`: NotFound, or the store without that post. */
  function ApplyRemove(posts: seq<Post>, id: string): (Result<()>, seq<Post>) {
    match IndexOfId(posts, id)
    case None => (Err(NotFound(NotFoundMessage(id))), posts)
    case Some(i) => (Ok(()), RemoveAt(posts, i))
  }

  // ------------------------------------------------------------- properties

  /** A created post is a draft unless the DTO says otherwise, copies the
      DTO, is the one post added to the store, can be found by its id, and
      is listed under its status. */
  lemma CreateOutcome(posts: seq<Post>, dto: CreatePostDto, id: string, now: int)
    requires ValidStore(posts)
    requires forall p :: p in posts ==> p.id != id
    ensures var (p, after) := ApplyCreate(posts, dto, id, now);
      && p.status == (if dto.status.Some? then dto.status.value else Draft)
      && p.showInCarousel == (dto.showInCarousel == Some(true))
      && p.titleFr == dto.titleFr && p.titleEn == dto.titleEn && p.titleEs == dto.titleEs
      && p.contentFr == dto.contentFr && p.contentEn == dto.contentEn && p.contentEs == dto.contentEs
      && p.image == dto.image && p.id == id && p.createdAt == now
      && multiset(after) == multiset(posts) + multiset{p}
      && ValidStore(after)
      && FindOne(after, id) == Ok(p)
      && p in FindAll(after, Some(p.status))
      && (dto.status.None? ==> p in FindAll(after, Some(Draft)) && p !in FindAll(after, Some(Published)))
  {
    var (p, after) := ApplyCreate(posts, dto, id, now);
    forall i, j | 0 <= i < j < |after| ensures after[i].id != after[j].id {
      if j == |posts| { assert after[i] in posts; }
    }
    var found := IndexOfId(after, id);
    assert after[|posts|].id == id;
    assert found.Some?;
    assert found.value == |posts|;
    assert p in after;
  }

  /** `update` fails exactly for an unknown id; otherwise it overwrites the
      DTO's fields of that post only, keeping its id and creation time. */
  lemma UpdateOutcome(posts: seq<Post>, id: string, dto: UpdatePostDto)
    requires ValidStore(posts)
    ensures var (r, after) := ApplyUpdate(posts, id, dto);
      && (r.Err? <==> forall p :: p in posts ==> p.id != id)
      && (r.Err? ==> r.error == NotFound(NotFoundMessage(id)) && after == posts)
      && (r.Ok? ==> r.value == Merge(FindOne(posts, id).value, dto) && r.value.id == id
                    && FindOne(after, id) == r)
      && |after| == |posts|
      && (forall k :: 0 <= k < |posts| && posts[k].id != id ==> after[k] == posts[k])
      && ValidStore(after)
  {
    var (r, after) := ApplyUpdate(posts, id, dto);
    var found := IndexOfId(posts, id);
    if found.Some? {
      var i := found.value;
      assert after[i].id == id;
      assert IndexOfId(after, id) == found;
    } else {
      forall p | p in posts ensures p.id != id {
        var k :| 0 <= k < |posts| && posts[k] == p;
      }
    }
  }

  /** `remove` fails exactly for an unknown id and otherwise deletes that
      post and no other. */
  lemma RemoveOnlyTarget(posts: seq<Post>, id: string)
    requires ValidStore(posts)
    ensures var (r, after) := ApplyRemove(posts, id);
      && (r.Err? <==> forall p :: p in posts ==> p.id != id)
      && (r.Err? ==> r.error == NotFound(NotFoundMessage(id)) && after == posts)
      && (r.Ok? ==> |after| == |posts| - 1)
      && (forall p :: p in after <==> p in posts && p.id != id)
      && ValidStore(after)
  {
    var (r, after) := ApplyRemove(posts, id);
    var found := IndexOfId(posts, id);
    if found.Some? {
      var i := found.value;
      forall p ensures p in after <==> p in posts && p.id != id {
        if p in posts && p.id != id {
          var k :| 0 <= k < |posts| && posts[k] == p;
          if k < i { assert after[k] == p; } else { assert after[k - 1] == p; }
        }
        if p in after {
          var k :| 0 <= k < |after| && after[k] == p;
          if k < i { assert p == posts[k]; } else { assert p == posts[k + 1]; }
        }
      }
      forall p, q | 0 <= p < q < |after| ensures after[p].id != after[q].id {
        var p' := if p < i then p else p + 1;
        var q' := if q < i then q else q + 1;
        assert after[p] == posts[p'] && after[q] == posts[q'];
      }
    } else {
      forall p | p in posts ensures p.id != id {
        var k :| 0 <= k < |posts| && posts[k] == p;
      }
    }
  }

  /** The carousel is a part of the published listing. */
  lemma CarouselIsPublished(posts: seq<Post>)
    ensures forall p :: p in FindCarousel(posts) ==> p in FindAll(posts, Some(Published)) && p.showInCarousel
  {
  }

  // ------------------------------------------------------------------ state

  /** The service with its repository of posts. */
  class PostsService {
    var posts: seq<Post>

    constructor(initial: seq<Post>)
      requires ValidStore(initial)
      ensures posts == initial
    {
      posts := initial;
    }

    method Create(dto: CreatePostDto, id: string, now: int) returns (post: Post)
      requires ValidStore(posts)
      requires forall p :: p in posts ==> p.id != id
      modifies this
      ensures ValidStore(posts)
      ensures (post, posts) == ApplyCreate(old(posts), dto, id, now)
    {
      CreateOutcome(posts, dto, id, now);
      post := NewPost(dto, id, now);
      posts := posts + [post];
    }

    method Update(id: string, dto: UpdatePostDto) returns (r: Result<Post>)
      requires ValidStore(posts)
      modifies this
      ensures ValidStore(posts)
      ensures (r, posts) == ApplyUpdate(old(posts), id, dto)
    {
      UpdateOutcome(posts, id, dto);
      r := FindOne(posts, id);
      if r.Err? {
        return;
      }
      var post := Merge(r.value, dto);
      var i := IndexOfId(posts, id).value;
      posts := posts[i := post];
      r := Ok(post);
    }

    method Remove(id: string) returns (r: Result<()>)
      requires ValidStore(posts)
      modifies this
      ensures ValidStore(posts)
      ensures (r, posts) == ApplyRemove(old(posts), id)
    {
      RemoveOnlyTarget(posts, id);
      var found := FindOne(posts, id);
      if found.Err? {
        return Err(found.error);
      }
      var i := IndexOfId(posts, id).value;
      posts := posts[..i] + posts[i + 1..];
      r := Ok(());
    }
  }
}
