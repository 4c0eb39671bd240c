/** PostService as transitions on the tables. */
module PostSpec {
  import opened Entities

  /** Reads a response back as the id and record it was made from. */
  function FromResponse(r: PostResponse): (int, Post)
  {
    (r.id, Post(r.title, r.content, r.author, r.categoryId, r.createdAt, r.updatedAt))
  }

  /** The response for post `id` whose category record is `c`: every field of
      the post unchanged, plus the category's name. */
  function Present(id: int, p: Post, c: Category): (r: PostResponse)
    ensures FromResponse(r) == (id, p) && r.categoryName == c.name
  {
    PostResponse(id, p.title, p.content, p.author, p.categoryId, c.name, p.createdAt, p.updatedAt)
  }

  /** mapToResponse: joins the post with its category to fill in the category's
      name; fails when that category row no longer exists. */
  function MapToResponse(categories: map<int, Category>, id: int, p: Post): (r: Result<PostResponse>)
    ensures r.Ok? <==> p.categoryId in categories
    ensures r.Ok? ==> FromResponse(r.value) == (id, p) && r.value.categoryName == categories[p.categoryId].name
    ensures r.Err? ==> r.error == DanglingReference(CategoryEntity, p.categoryId)
  {
    if p.categoryId in categories then Ok(Present(id, p, categories[p.categoryId]))
    else Err(DanglingReference(CategoryEntity, p.categoryId))
  }

  /** getPostById: NotFound exactly when the id is absent, else the stored post's response. */
  function GetPostById(t: Tables, id: int): (r: Result<PostResponse>)
    ensures id !in t.posts ==> r == Err(NotFound(PostEntity, id))
    ensures id in t.posts ==> r == MapToResponse(t.categories, id, t.posts[id])
    ensures id in t.posts && Linked(t) ==> r.Ok?
  {
    if id in t.posts then MapToResponse(t.categories, id, t.posts[id]) else Err(NotFound(PostEntity, id))
  }

  /** createPost: NotFound with no change when the category is absent; otherwise
      exactly one new post under the next generated id, above every id issued
      so far, with the requested fields, linked to
      the requested category, created and updated at two successive clock
      readings taken `elapsed1` and then `elapsed2` after the last one. */
  function CreatePost(t: Tables, req: PostRequest, elapsed1: Time, elapsed2: Time): (s: Step<PostResponse>)
    requires Valid(t)
    ensures Valid(s.after)
    ensures s.result.Err? <==> req.categoryId !in t.categories
    ensures s.result.Err? ==> s.result.error == NotFound(CategoryEntity, req.categoryId) && s.after == t
    ensures s.result.Ok? ==> var r := s.result.value;
      && r.id == t.nextPostId && r.id !in t.posts
      && (forall k :: k in t.posts ==> k < r.id)
      && t.clock <= r.createdAt <= r.updatedAt
      && s.after == t.(posts := t.posts[r.id := Post(req.title, req.content, req.author, req.categoryId, r.createdAt, r.updatedAt)],
                       nextPostId := r.id + 1, clock := r.updatedAt)
      && r == Present(r.id, s.after.posts[r.id], t.categories[req.categoryId])
    ensures Linked(t) ==> Linked(s.after)
  {
    if req.categoryId !in t.categories then Step(Err(NotFound(CategoryEntity, req.categoryId)), t)
    else
      var id := t.nextPostId;
      var createdAt := t.clock + elapsed1;
      var updatedAt := createdAt + elapsed2;
      var p := Post(req.title, req.content, req.author, req.categoryId, createdAt, updatedAt);
      Step(Ok(Present(id, p, t.categories[req.categoryId])),
           t.(posts := t.posts[id := p], nextPostId := id + 1, clock := updatedAt))
  }

  /** updatePost. NotFound with no change when the post is absent. The category
      is looked up only when the requested id differs from the post's current
      one; when that lookup fails the result is NotFound with no change. The
      title, content and author are overwritten and updatedAt is set to the
      clock read `elapsed` after the last reading; the id and createdAt stay, and
      no other record changes. The update is rolled back when the response
      cannot be built because the kept category no longer exists. */
  function UpdatePost(t: Tables, id: int, req: PostRequest, elapsed: Time): (s: Step<PostResponse>)
    requires Valid(t)
    ensures Valid(s.after)
    ensures s.result.Err? ==> s.after == t
    ensures id !in t.posts ==> s.result == Err(NotFound(PostEntity, id))
    ensures id in t.posts ==> var before := t.posts[id];
      && (s.result.Err? && s.result.error.NotFound? <==> before.categoryId != req.categoryId && req.categoryId !in t.categories)
      && (s.result.Err? && s.result.error.NotFound? ==> s.result.error == NotFound(CategoryEntity, req.categoryId))
      && (s.result.Err? && s.result.error.DanglingReference? <==> before.categoryId == req.categoryId && req.categoryId !in t.categories)
      && (s.result.Ok? <==> req.categoryId in t.categories)
    ensures s.result.Ok? ==> var r := s.result.value; var before := t.posts[id];
      && id in t.posts && r.id == id
      && before.updatedAt <= t.clock <= r.updatedAt
      && s.after == t.(posts := t.posts[id := Post(req.title, req.content, req.author, req.categoryId, before.createdAt, r.updatedAt)],
                       clock := r.updatedAt)
      && r == Present(id, s.after.posts[id], t.categories[req.categoryId])
    ensures Linked(t) ==> Linked(s.after) && !(s.result.Err? && s.result.error.DanglingReference?)
  {
    if id !in t.posts then Step(Err(NotFound(PostEntity, id)), t)
    else
      var post := t.posts[id];
      if post.categoryId != req.categoryId && req.categoryId !in t.categories then
        Step(Err(NotFound(CategoryEntity, req.categoryId)), t)
      else
        var updatedAt := t.clock + elapsed;
        var p := post.(title := req.title, content := req.content, author := req.author,
                       categoryId := req.categoryId, updatedAt := updatedAt);
        match MapToResponse(t.categories, id, p)
        case Err(e) => Step(Err(e), t)
        case Ok(r) => Step(Ok(r), t.(posts := t.posts[id := p], clock := updatedAt))
  }

  /** deletePost: NotFound with no change when the id is absent; otherwise
      exactly that post is removed. Its comments are left in place. */
  function DeletePost(t: Tables, id: int): (s: Step<()>)
    requires Valid(t)
    ensures Valid(s.after)
    ensures s.result.Err? <==> id !in t.posts
    ensures s.result.Err? ==> s.result.error == NotFound(PostEntity, id) && s.after == t
    ensures s.result.Ok? ==> s.after == t.(posts := t.posts - {id})
    ensures s.result.Ok? && Linked(t) ==>
      (Linked(s.after) <==> forall k :: k in t.comments ==> t.comments[k].postId != id)
  {
    if id !in t.posts then Step(Err(NotFound(PostEntity, id)), t)
    else Step(Ok(()), t.(posts := t.posts - {id}))
  }

  /** The ids of the posts in category `categoryId`, in insertion order. */
  function IdsInCategory(t: Tables, categoryId: int): (ids: seq<int>)
    requires Valid(t)
    ensures forall k :: k in ids <==> k in t.posts && t.posts[k].categoryId == categoryId
    ensures forall i, j :: 0 <= i < j < |ids| ==> ids[i] < ids[j]
  {
    KeysWhere(t.posts, t.nextPostId, (p: Post) => p.categoryId == categoryId)
  }

  /** getPostsByCategory: NotFound when the category is absent; otherwise one
      response per post of that category, in insertion order, each carrying the
      category's id and name. */
  function GetPostsByCategory(t: Tables, categoryId: int): (r: Result<seq<PostResponse>>)
    requires Valid(t)
    ensures r.Err? <==> categoryId !in t.categories
    ensures r.Err? ==> r.error == NotFound(CategoryEntity, categoryId)
    ensures r.Ok? ==> var rs := r.value;
      && (forall i :: 0 <= i < |rs| ==>
            && rs[i].id in t.posts
            && rs[i] == Present(rs[i].id, t.posts[rs[i].id], t.categories[categoryId])
            && rs[i].categoryId == categoryId
            && rs[i].categoryName == t.categories[categoryId].name)
      && (forall k :: k in t.posts && t.posts[k].categoryId == categoryId ==>
            exists i :: 0 <= i < |rs| && rs[i].id == k)
      && (forall i, j :: 0 <= i < j < |rs| ==> rs[i].id < rs[j].id)
  {
    if categoryId !in t.categories then Err(NotFound(CategoryEntity, categoryId))
    else
      var ids := IdsInCategory(t, categoryId);
      assert forall i :: 0 <= i < |ids| ==> ids[i] in ids;
      var c := t.categories[categoryId];
      var rs := MapIds(t.posts, ids, PresentIn(c));
      assert forall i :: 0 <= i < |ids| ==> rs[i] == Present(ids[i], t.posts[ids[i]], c) && rs[i].id == ids[i];
      assert forall k :: k in t.posts && t.posts[k].categoryId == categoryId ==>
        k in ids && exists i :: 0 <= i < |ids| && ids[i] == k;
      Ok(rs)
  }

  /** Present with the category fixed: the map applied to a category's listing. */
  function PresentIn(c: Category): (int, Post) -> PostResponse
  {
    (id: int, p: Post) => Present(id, p, c)
  }
}

/** PostService: the service methods over the database. They follow the Java code
    step by step, so a read-only method computes what its specification
    function computes, and each one is proved equal to it. */
module PostService {
  import opened Entities
  import opened Store
  import PostSpec

  method GetPostById(db: Database, id: int) returns (r: Result<PostResponse>)
    ensures r == PostSpec.GetPostById(db.State(), id)
  {
    if id !in db.posts {
      return Err(NotFound(PostEntity, id));
    }
    var post := db.posts[id];
    r := PostSpec.MapToResponse(db.categories, id, post);
  }

  method CreatePost(db: Database, req: PostRequest, elapsed1: Time, elapsed2: Time) returns (r: Result<PostResponse>)
    requires Valid(db.State())
    modifies db
    ensures Step(r, db.State()) == PostSpec.CreatePost(old(db.State()), req, elapsed1, elapsed2)
  {
    if req.categoryId !in db.categories {
      return Err(NotFound(CategoryEntity, req.categoryId));
    }
    var category := db.categories[req.categoryId];
    var post := Post("", "", "", 0, 0, 0);
    post := post.(title := req.title);
    post := post.(content := req.content);
    post := post.(author := req.author);
    post := post.(categoryId := req.categoryId);
    var createdAt := db.Now(elapsed1);
    post := post.(createdAt := createdAt);
    var updatedAt := db.Now(elapsed2);
    post := post.(updatedAt := updatedAt);
    var id := db.InsertPost(post);
    r := Ok(PostSpec.Present(id, post, category));
  }

  method UpdatePost(db: Database, id: int, req: PostRequest, elapsed: Time) returns (r: Result<PostResponse>)
    requires Valid(db.State())
    modifies db
    ensures Step(r, db.State()) == PostSpec.UpdatePost(old(db.State()), id, req, elapsed)
  {
    var snapshot := db.State();
    if id !in db.posts {
      return Err(NotFound(PostEntity, id));
    }
    var post := db.posts[id];
    if post.categoryId != req.categoryId {
      if req.categoryId !in db.categories {
        return Err(NotFound(CategoryEntity, req.categoryId));
      }
      post := post.(categoryId := req.categoryId);
    }
    post := post.(title := req.title);
    post := post.(content := req.content);
    post := post.(author := req.author);
    var updatedAt := db.Now(elapsed);
    post := post.(updatedAt := updatedAt);
    db.posts := db.posts[id := post];
    r := PostSpec.MapToResponse(db.categories, id, post);
    if r.Err? {
      db.Restore(snapshot);
    }
  }

  method DeletePost(db: Database, id: int) returns (r: Result<()>)
    requires Valid(db.State())
    modifies db
    ensures Step(r, db.State()) == PostSpec.DeletePost(old(db.State()), id)
  {
    if id !in db.posts {
      return Err(NotFound(PostEntity, id));
    }
    db.posts := db.posts - {id};
    r := Ok(());
  }

  method GetPostsByCategory(db: Database, categoryId: int) returns (r: Result<seq<PostResponse>>)
    requires Valid(db.State())
    ensures r == PostSpec.GetPostsByCategory(db.State(), categoryId)
  {
    if categoryId !in db.categories {
      return Err(NotFound(CategoryEntity, categoryId));
    }
    var category := db.categories[categoryId];
    var ids := KeysWhere(db.posts, db.nextPostId, (p: Post) => p.categoryId == categoryId);
    r := Ok(MapIds(db.posts, ids, PostSpec.PresentIn(category)));
  }
}
