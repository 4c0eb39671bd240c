/** CommentService as transitions on the tables. */
module CommentSpec {
  import opened Entities

  /** Reads a response back as the id and record it was made from, given the
      post the comment belongs to (the response itself does not carry it). */
  function FromResponse(r: CommentResponse, postId: int): (int, Comment)
  {
    (r.id, Comment(r.content, r.author, postId, r.createdAt))
  }

  /** mapToResponse: the id, content, author and createdAt unchanged. */
  function MapToResponse(id: int, c: Comment): (r: CommentResponse)
    ensures FromResponse(r, c.postId) == (id, c)
  {
    CommentResponse(id, c.content, c.author, c.createdAt)
  }

  /** The response exposes no post reference: two comments that differ at most
      in their post map to the same response, and only those do. */
  lemma MapToResponseIgnoresPost(id1: int, c1: Comment, id2: int, c2: Comment)
    ensures MapToResponse(id1, c1) == MapToResponse(id2, c2)
       <==> id1 == id2 && c1.(postId := c2.postId) == c2
  {
    if MapToResponse(id1, c1) == MapToResponse(id2, c2) {
      assert FromResponse(MapToResponse(id1, c1), c2.postId) == (id2, c2);
    }
  }

  /** The ids of the comments of post `postId`, in insertion order. */
  function IdsOfPost(t: Tables, postId: int): (ids: seq<int>)
    requires Valid(t)
    ensures forall k :: k in ids <==> k in t.comments && t.comments[k].postId == postId
    ensures forall i, j :: 0 <= i < j < |ids| ==> ids[i] < ids[j]
  {
    KeysWhere(t.comments, t.nextCommentId, (c: Comment) => c.postId == postId)
  }

  /** getCommentsByPostId: NotFound when the post is absent; otherwise one
      response per comment of that post, in insertion order, and no others. */
  function GetCommentsByPostId(t: Tables, postId: int): (r: Result<seq<CommentResponse>>)
    requires Valid(t)
    ensures r.Err? <==> postId !in t.posts
    ensures r.Err? ==> r.error == NotFound(PostEntity, postId)
    ensures r.Ok? ==> var rs := r.value;
      && (forall i :: 0 <= i < |rs| ==>
            && rs[i].id in t.comments
            && t.comments[rs[i].id].postId == postId
            && rs[i] == MapToResponse(rs[i].id, t.comments[rs[i].id]))
      && (forall k :: k in t.comments && t.comments[k].postId == postId ==>
            exists i :: 0 <= i < |rs| && rs[i].id == k)
      && (forall i, j :: 0 <= i < j < |rs| ==> rs[i].id < rs[j].id)
  {
    if postId !in t.posts then Err(NotFound(PostEntity, postId))
    else
      var ids := IdsOfPost(t, postId);
      assert forall i :: 0 <= i < |ids| ==> ids[i] in ids;
      var rs := MapIds(t.comments, ids, MapToResponse);
      assert forall k :: k in t.comments && t.comments[k].postId == postId ==>
        k in ids && exists i :: 0 <= i < |ids| && ids[i] == k;
      Ok(rs)
  }

  /** addComment: NotFound with nothing stored when the post is absent;
      otherwise exactly one new comment under the next generated id, above every
      id issued so far, with the requested
      content and author, linked to the post, created at the clock read
      `elapsed` after the last reading. */
  function AddComment(t: Tables, postId: int, req: CommentRequest, elapsed: Time): (s: Step<CommentResponse>)
    requires Valid(t)
    ensures Valid(s.after)
    ensures s.result.Err? <==> postId !in t.posts
    ensures s.result.Err? ==> s.result.error == NotFound(PostEntity, postId) && s.after == t
    ensures s.result.Ok? ==> var r := s.result.value;
      && r.id == t.nextCommentId && r.id !in t.comments
      && (forall k :: k in t.comments ==> k < r.id)
      && t.clock <= r.createdAt
      && s.after == t.(comments := t.comments[r.id := Comment(req.content, req.author, postId, r.createdAt)],
                       nextCommentId := r.id + 1, clock := r.createdAt)
      && r == MapToResponse(r.id, s.after.comments[r.id])
    ensures Linked(t) ==> Linked(s.after)
  {
    if postId !in t.posts then Step(Err(NotFound(PostEntity, postId)), t)
    else
      var id := t.nextCommentId;
      var createdAt := t.clock + elapsed;
      var c := Comment(req.content, req.author, postId, createdAt);
      Step(Ok(MapToResponse(id, c)), t.(comments := t.comments[id := c], nextCommentId := id + 1, clock := createdAt))
  }

  /** updateComment: NotFound with no change when the id is absent; otherwise
      only content and author are overwritten: id, createdAt and post stay. */
  function UpdateComment(t: Tables, id: int, req: CommentRequest): (s: Step<CommentResponse>)
    requires Valid(t)
    ensures Valid(s.after)
    ensures s.result.Err? <==> id !in t.comments
    ensures s.result.Err? ==> s.result.error == NotFound(CommentEntity, id) && s.after == t
    ensures s.result.Ok? ==> var before := t.comments[id];
      && s.after == t.(comments := t.comments[id := Comment(req.content, req.author, before.postId, before.createdAt)])
      && s.result.value == CommentResponse(id, req.content, req.author, before.createdAt)
    ensures Linked(t) ==> Linked(s.after)
  {
    if id !in t.comments then Step(Err(NotFound(CommentEntity, id)), t)
    else
      var c := t.comments[id].(content := req.content, author := req.author);
      Step(Ok(MapToResponse(id, c)), t.(comments := t.comments[id := c]))
  }

  /** deleteComment: NotFound with no change when the id is absent; otherwise
      exactly that comment is removed. */
  function DeleteComment(t: Tables, id: int): (s: Step<()>)
    requires Valid(t)
    ensures Valid(s.after)
    ensures s.result.Err? <==> id !in t.comments
    ensures s.result.Err? ==> s.result.error == NotFound(CommentEntity, id) && s.after == t
    ensures s.result.Ok? ==> s.after == t.(comments := t.comments - {id})
    ensures Linked(t) ==> Linked(s.after)
  {
    if id !in t.comments then Step(Err(NotFound(CommentEntity, id)), t)
    else Step(Ok(()), t.(comments := t.comments - {id}))
  }

  /** Deleting a comment twice fails the second time, with no further change. */
  lemma DeleteTwice(t: Tables, id: int)
    requires Valid(t)
    ensures var s := DeleteComment(t, id);
      DeleteComment(s.after, id) == Step(Err(NotFound(CommentEntity, id)), s.after)
  {
  }
}

/** CommentService: the service methods over the database. They follow the Java code
    step by step, so a read-only method computes what its specification
    function computes, and each one is proved equal to it. */
module CommentService {
  import opened Entities
  import opened Store
  import CommentSpec

  method GetCommentsByPostId(db: Database, postId: int) returns (r: Result<seq<CommentResponse>>)
    requires Valid(db.State())
    ensures r == CommentSpec.GetCommentsByPostId(db.State(), postId)
  {
    if postId !in db.posts {
      return Err(NotFound(PostEntity, postId));
    }
    var ids := KeysWhere(db.comments, db.nextCommentId, (c: Comment) => c.postId == postId);
    r := Ok(MapIds(db.comments, ids, CommentSpec.MapToResponse));
  }

  method AddComment(db: Database, postId: int, req: CommentRequest, elapsed: Time) returns (r: Result<CommentResponse>)
    requires Valid(db.State())
    modifies db
    ensures Step(r, db.State()) == CommentSpec.AddComment(old(db.State()), postId, req, elapsed)
  {
    if postId !in db.posts {
      return Err(NotFound(PostEntity, postId));
    }
    var comment := Comment("", "", 0, 0);
    comment := comment.(content := req.content);
    comment := comment.(author := req.author);
    comment := comment.(postId := postId);
    var createdAt := db.Now(elapsed);
    comment := comment.(createdAt := createdAt);
    var id := db.InsertComment(comment);
    r := Ok(CommentSpec.MapToResponse(id, comment));
  }

  method UpdateComment(db: Database, id: int, req: CommentRequest) returns (r: Result<CommentResponse>)
    requires Valid(db.State())
    modifies db
    ensures Step(r, db.State()) == CommentSpec.UpdateComment(old(db.State()), id, req)
  {
    if id !in db.comments {
      return Err(NotFound(CommentEntity, id));
    }
    var comment := db.comments[id];
    comment := comment.(content := req.content);
    comment := comment.(author := req.author);
    db.comments := db.comments[id := comment];
    r := Ok(CommentSpec.MapToResponse(id, comment));
  }

  method DeleteComment(db: Database, id: int) returns (r: Result<()>)
    requires Valid(db.State())
    modifies db
    ensures Step(r, db.State()) == CommentSpec.DeleteComment(old(db.State()), id)
  {
    if id !in db.comments {
      return Err(NotFound(CommentEntity, id));
    }
    db.comments := db.comments - {id};
    r := Ok(());
  }
}
