/** The persistence layer the services are given: the category, post and
    comment repositories as maps keyed by id, each with its own id generator,
    and the clock that LocalDateTime.now() reads. */
module Store {
  import opened Entities

  class Database {
    var categories: map<int, Category>
    var posts: map<int, Post>
    var comments: map<int, Comment>
    var nextCategoryId: int
    var nextPostId: int
    var nextCommentId: int
    var clock: Time

    /** The database as a value. */
    function State(): Tables
      reads this
    {
      Tables(categories, posts, comments, nextCategoryId, nextPostId, nextCommentId, clock)
    }

    constructor ()
      ensures State() == Empty && Valid(State())
    {
      categories, posts, comments := map[], map[], map[];
      nextCategoryId, nextPostId, nextCommentId := 1, 1, 1;
      clock := 0;
    }

    /** LocalDateTime.now(): `elapsed` time passes, then the clock is read. */
    method Now(elapsed: Time) returns (now: Time)
      modifies this`clock
      ensures now == old(clock) + elapsed && clock == now
    {
      clock := clock + elapsed;
      now := clock;
    }

    /** save() of a new category: the generated id is the table's next id. */
    method InsertCategory(c: Category) returns (id: int)
      modifies this`categories, this`nextCategoryId
      ensures id == old(nextCategoryId) && nextCategoryId == id + 1
      ensures categories == old(categories)[id := c]
    {
      id := nextCategoryId;
      categories := categories[id := c];
      nextCategoryId := id + 1;
    }

    /** save() of a new post. */
    method InsertPost(p: Post) returns (id: int)
      modifies this`posts, this`nextPostId
      ensures id == old(nextPostId) && nextPostId == id + 1
      ensures posts == old(posts)[id := p]
    {
      id := nextPostId;
      posts := posts[id := p];
      nextPostId := id + 1;
    }

    /** save() of a new comment. */
    method InsertComment(c: Comment) returns (id: int)
      modifies this`comments, this`nextCommentId
      ensures id == old(nextCommentId) && nextCommentId == id + 1
      ensures comments == old(comments)[id := c]
    {
      id := nextCommentId;
      comments := comments[id := c];
      nextCommentId := id + 1;
    }

    /** Undoes every change since `snapshot` was taken: a transaction rolled back. */
    method Restore(snapshot: Tables)
      modifies this
      ensures State() == snapshot
    {
      categories, posts, comments := snapshot.categories, snapshot.posts, snapshot.comments;
      nextCategoryId, nextPostId, nextCommentId := snapshot.nextCategoryId, snapshot.nextPostId, snapshot.nextCommentId;
      clock := snapshot.clock;
    }
  }
}
