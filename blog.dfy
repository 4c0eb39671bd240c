/** Properties that relate calls of the three services to one another. */
module Blog {
  import opened Entities
  import CategorySpec
  import PostSpec
  import CommentSpec

  /** A new post is listed last among the posts of its category. */
  lemma CreatePostIsListedLast(t: Tables, req: PostRequest, elapsed1: Time, elapsed2: Time)
    requires Valid(t) && req.categoryId in t.categories
    ensures var s := PostSpec.CreatePost(t, req, elapsed1, elapsed2);
      && s.result.Ok?
      && PostSpec.GetPostsByCategory(s.after, req.categoryId)
         == Ok(PostSpec.GetPostsByCategory(t, req.categoryId).value + [s.result.value])
  {
    var s := PostSpec.CreatePost(t, req, elapsed1, elapsed2);
    PostListingAppend(t, s.after, req.categoryId, s.after.posts[t.nextPostId]);
  }

  /** Storing post `p` of category `categoryId` under the next id appends its response to that category's listing. */
  lemma {:induction false} PostListingAppend(t: Tables, t': Tables, categoryId: int, p: Post)
    requires Valid(t) && Valid(t') && categoryId in t.categories && p.categoryId == categoryId
    requires t'.posts == t.posts[t.nextPostId := p] && t'.nextPostId == t.nextPostId + 1
    requires t'.categories == t.categories
    ensures PostSpec.GetPostsByCategory(t', categoryId)
         == Ok(PostSpec.GetPostsByCategory(t, categoryId).value + [PostSpec.Present(t.nextPostId, p, t.categories[categoryId])])
  {
    var id := t.nextPostId;
    var c := t.categories[categoryId];
    KeysWhereAppend(t.posts, id, p, (q: Post) => q.categoryId == categoryId);
    var ids := PostSpec.IdsInCategory(t, categoryId);
    assert PostSpec.IdsInCategory(t', categoryId) == ids + [id];
    assert forall i :: 0 <= i < |ids| ==> ids[i] in ids;
    MapIdsAppend(t.posts, ids, id, p, PostSpec.PresentIn(c));
  }

  /** A new comment is listed last among the comments of its post. */
  lemma AddCommentIsListedLast(t: Tables, postId: int, req: CommentRequest, elapsed: Time)
    requires Valid(t) && postId in t.posts
    ensures var s := CommentSpec.AddComment(t, postId, req, elapsed);
      && s.result.Ok?
      && CommentSpec.GetCommentsByPostId(s.after, postId)
         == Ok(CommentSpec.GetCommentsByPostId(t, postId).value + [s.result.value])
  {
    var s := CommentSpec.AddComment(t, postId, req, elapsed);
    CommentListingAppend(t, s.after, postId, s.after.comments[t.nextCommentId]);
  }

  /** Storing comment `c` of post `postId` under the next id appends its response to that post's listing. */
  lemma {:induction false} CommentListingAppend(t: Tables, t': Tables, postId: int, c: Comment)
    requires Valid(t) && Valid(t') && postId in t.posts && c.postId == postId
    requires t'.comments == t.comments[t.nextCommentId := c] && t'.nextCommentId == t.nextCommentId + 1
    requires t'.posts == t.posts
    ensures CommentSpec.GetCommentsByPostId(t', postId)
         == Ok(CommentSpec.GetCommentsByPostId(t, postId).value + [CommentSpec.MapToResponse(t.nextCommentId, c)])
  {
    var id := t.nextCommentId;
    KeysWhereAppend(t.comments, id, c, (d: Comment) => d.postId == postId);
    var ids := CommentSpec.IdsOfPost(t, postId);
    assert CommentSpec.IdsOfPost(t', postId) == ids + [id];
    assert forall i :: 0 <= i < |ids| ==> ids[i] in ids;
    MapIdsAppend(t.comments, ids, id, c, CommentSpec.MapToResponse);
  }

  /** getPostsByCategory returns as many responses as the category has posts. */
  lemma PostsByCategoryCount(t: Tables, categoryId: int)
    requires Valid(t) && categoryId in t.categories
    ensures |PostSpec.GetPostsByCategory(t, categoryId).value|
         == |set k | k in t.posts && t.posts[k].categoryId == categoryId|
  {
    var keep := (p: Post) => p.categoryId == categoryId;
    KeysWhereCount(t.posts, t.nextPostId, keep);
    assert Matching(t.posts, t.nextPostId, keep) == set k | k in t.posts && t.posts[k].categoryId == categoryId;
  }

  /** After an update the post reads back with the requested category's id and
      name, whether it was relinked or kept its category. */
  lemma UpdatePostThenGet(t: Tables, id: int, req: PostRequest, elapsed: Time)
    requires Valid(t)
    ensures var s := PostSpec.UpdatePost(t, id, req, elapsed);
      s.result.Ok? ==>
        && PostSpec.GetPostById(s.after, id) == s.result
        && s.result.value.categoryId == req.categoryId
        && s.result.value.categoryName == t.categories[req.categoryId].name
  {
  }

  /** A post shows the current name of its category: renaming the category
      renames it in every post that references it. */
  lemma UpdateCategoryRenamesPosts(t: Tables, categoryId: int, req: CategoryRequest, postId: int)
    requires Valid(t) && postId in t.posts && t.posts[postId].categoryId == categoryId
    ensures var s := CategorySpec.UpdateCategory(t, categoryId, req);
      s.result.Ok? ==>
        && PostSpec.GetPostById(s.after, postId).Ok?
        && PostSpec.GetPostById(s.after, postId).value.categoryName == req.name
  {
  }

  /** Deleting a category orphans its posts: they stay in the post table, but
      reading one fails because its category can no longer be resolved. */
  lemma DeleteCategoryOrphansPosts(t: Tables, categoryId: int, postId: int)
    requires Valid(t) && postId in t.posts && t.posts[postId].categoryId == categoryId
    ensures var s := CategorySpec.DeleteCategory(t, categoryId);
      s.result.Ok? ==>
        && s.after.posts == t.posts
        && PostSpec.GetPostById(s.after, postId) == Err(DanglingReference(CategoryEntity, categoryId))
  {
  }

  /** Deleting a post twice fails the second time, with no further change. */
  lemma DeletePostTwice(t: Tables, id: int)
    requires Valid(t)
    ensures var s := PostSpec.DeletePost(t, id);
      PostSpec.DeletePost(s.after, id) == Step(Err(NotFound(PostEntity, id)), s.after)
  {
  }

  /** Ids are never reused: a category created after the previous one was
      deleted gets a larger id. */
  lemma CategoryIdNotReused(t: Tables, req1: CategoryRequest, req2: CategoryRequest)
    requires Valid(t)
    ensures var s1 := CategorySpec.CreateCategory(t, req1);
      var s2 := CategorySpec.DeleteCategory(s1.after, s1.result.value.id);
      var s3 := CategorySpec.CreateCategory(s2.after, req2);
      s2.result.Ok? && s3.result.value.id > s1.result.value.id
  {
  }

  /** Ids are never reused: a post created after the previous one was deleted
      gets a larger id. */
  lemma PostIdNotReused(t: Tables, req1: PostRequest, req2: PostRequest, e1: Time, e2: Time, e3: Time, e4: Time)
    requires Valid(t) && req1.categoryId in t.categories && req2.categoryId in t.categories
    ensures var s1 := PostSpec.CreatePost(t, req1, e1, e2);
      var s2 := PostSpec.DeletePost(s1.after, s1.result.value.id);
      var s3 := PostSpec.CreatePost(s2.after, req2, e3, e4);
      s1.result.Ok? && s2.result.Ok? && s3.result.Ok? && s3.result.value.id > s1.result.value.id
  {
  }

  /** Ids are never reused: a comment added after the previous one was deleted
      gets a larger id. */
  lemma CommentIdNotReused(t: Tables, postId: int, req1: CommentRequest, req2: CommentRequest, e1: Time, e2: Time)
    requires Valid(t) && postId in t.posts
    ensures var s1 := CommentSpec.AddComment(t, postId, req1, e1);
      var s2 := CommentSpec.DeleteComment(s1.after, s1.result.value.id);
      var s3 := CommentSpec.AddComment(s2.after, postId, req2, e2);
      s1.result.Ok? && s2.result.Ok? && s3.result.Ok? && s3.result.value.id > s1.result.value.id
  {
  }

  /** A whole session on an empty database: create the category "Technology",
      a post in it and a comment on the post, list the comments, then delete the
      category. Under the orphan policy the post then cannot be read. The
      requires clauses only give the successive steps their names. */
  lemma {:induction false} Session(elapsed1: Time, elapsed2: Time, elapsed3: Time,
                                   s1: Step<CategoryResponse>, s2: Step<PostResponse>,
                                   s3: Step<CommentResponse>, s4: Step<()>)
    requires s1 == CategorySpec.CreateCategory(Empty, CategoryRequest("Technology", None))
    requires s2 == PostSpec.CreatePost(s1.after, PostRequest("T", "C", "A", 1), elapsed1, elapsed2)
    requires s3 == CommentSpec.AddComment(s2.after, 1, CommentRequest("Nice", "Bob"), elapsed3)
    requires s4 == CategorySpec.DeleteCategory(s3.after, 1)
    ensures s1.result == Ok(CategoryResponse(1, "Technology", None))
    ensures s2.result.Ok? && s2.result.value.id == 1
    ensures s2.result.value.categoryId == 1 && s2.result.value.categoryName == "Technology"
    ensures s3.result.Ok? && s3.result.value.content == "Nice" && s3.result.value.author == "Bob"
    ensures CommentSpec.GetCommentsByPostId(s3.after, 1) == Ok([s3.result.value])
    ensures s4.result == Ok(())
    ensures PostSpec.GetPostById(s4.after, 1) == Err(DanglingReference(CategoryEntity, 1))
  {
    var c := s3.after.comments[1];
    CommentListingAppend(s2.after, s3.after, 1, c);
    assert CommentSpec.IdsOfPost(s2.after, 1) == [];
    assert |CommentSpec.GetCommentsByPostId(s2.after, 1).value| == 0;
    assert CommentSpec.MapToResponse(1, c) == s3.result.value;
    assert CommentSpec.GetCommentsByPostId(s2.after, 1).value + [s3.result.value] == [s3.result.value];
  }
}
