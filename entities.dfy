/** The records the three services store and exchange, the tables that hold
    them, and the invariants every service operation keeps. */
module Entities {

  datatype Option<T> = None | Some(value: T)

  /** Which table an id refers to; it names the entity in an error message. */
  datatype Entity = CategoryEntity | PostEntity | CommentEntity

  /** `NotFound` is ResourceNotFoundException ("<entity> not found with id: <id>").
      `DanglingReference` is the persistence layer failing to resolve a post's
      category because that category row has been deleted (a server error). */
  datatype Error =
    | NotFound(entity: Entity, id: int)
    | DanglingReference(entity: Entity, id: int)

  datatype Result<T> = Ok(value: T) | Err(error: Error)

  /** A reading of LocalDateTime.now(), as a point on an abstract clock. */
  type Time = nat

  // Stored records. The id of a record is its key in its table.

  datatype Category = Category(name: string, description: Option<string>)

  datatype Post = Post(
    title: string, content: string, author: string,
    categoryId: int,
    createdAt: Time, updatedAt: Time)

  datatype Comment = Comment(content: string, author: string, postId: int, createdAt: Time)

  // Request bodies, after the framework's validation.

  datatype CategoryRequest = CategoryRequest(name: string, description: Option<string>)

  datatype PostRequest = PostRequest(title: string, content: string, author: string, categoryId: int)

  datatype CommentRequest = CommentRequest(content: string, author: string)

  // Response bodies.

  datatype CategoryResponse = CategoryResponse(id: int, name: string, description: Option<string>)

  datatype PostResponse = PostResponse(
    id: int, title: string, content: string, author: string,
    categoryId: int, categoryName: string,
    createdAt: Time, updatedAt: Time)

  datatype CommentResponse = CommentResponse(id: int, content: string, author: string, createdAt: Time)

  /** The three repositories' tables, the next id each table generates, and the
      latest clock reading committed to the store. */
  datatype Tables = Tables(
    categories: map<int, Category>,
    posts: map<int, Post>,
    comments: map<int, Comment>,
    nextCategoryId: int,
    nextPostId: int,
    nextCommentId: int,
    clock: Time)

  /** The outcome of one service call: what it returns and the tables afterwards. */
  datatype Step<T> = Step(result: Result<T>, after: Tables)

  /** An empty database: generated ids start at 1. */
  const Empty: Tables := Tables(map[], map[], map[], 1, 1, 1, 0)

  /** Every key of `m` is an id already generated below `next`. */
  predicate IdsBelow<T>(m: map<int, T>, next: int)
  {
    forall k :: k in m ==> 1 <= k < next
  }

  /** The store invariant: every stored id lies in [1, next) for its table's
      next-id counter, and no timestamp lies after the clock, with
      createdAt <= updatedAt. */
  predicate Valid(t: Tables)
  {
    && 1 <= t.nextCategoryId && 1 <= t.nextPostId && 1 <= t.nextCommentId
    && IdsBelow(t.categories, t.nextCategoryId)
    && IdsBelow(t.posts, t.nextPostId)
    && IdsBelow(t.comments, t.nextCommentId)
    && (forall k :: k in t.posts ==> t.posts[k].createdAt <= t.posts[k].updatedAt <= t.clock)
    && (forall k :: k in t.comments ==> t.comments[k].createdAt <= t.clock)
  }

  /** Referential integrity: every post's category and every comment's post exist. */
  predicate Linked(t: Tables)
  {
    && (forall k :: k in t.posts ==> t.posts[k].categoryId in t.categories)
    && (forall k :: k in t.comments ==> t.comments[k].postId in t.posts)
  }

  /** The keys of `m` below `next` whose record satisfies `keep`, in ascending
      order. Ids are generated ascending, so this is insertion order: it models
      findAll and the derived findByXId queries of the repositories, taking that
      order for the one they leave unspecified. */
  function KeysWhere<T>(m: map<int, T>, next: int, keep: T -> bool): (ks: seq<int>)
    ensures forall k :: k in ks <==> k in m && 1 <= k < next && keep(m[k])
    ensures forall i, j :: 0 <= i < j < |ks| ==> ks[i] < ks[j]
    decreases next
  {
    if next <= 1 then []
    else
      var below := KeysWhere(m, next - 1, keep);
      assert forall i :: 0 <= i < |below| ==> below[i] in below && below[i] < next - 1;
      if next - 1 in m && keep(m[next - 1]) then below + [next - 1] else below
  }

  /** The ids below `next` of the records of `m` that satisfy `keep`. */
  ghost function Matching<T>(m: map<int, T>, next: int, keep: T -> bool): set<int>
  {
    set k | k in m && 1 <= k < next && keep(m[k])
  }

  /** The number of keys listed is the number of matching records. */
  lemma {:induction false} KeysWhereCount<T>(m: map<int, T>, next: int, keep: T -> bool)
    ensures |KeysWhere(m, next, keep)| == |Matching(m, next, keep)|
    decreases next
  {
    if next <= 1 {
      assert Matching(m, next, keep) == {};
    } else {
      KeysWhereCount(m, next - 1, keep);
      var below := Matching(m, next - 1, keep);
      var all := Matching(m, next, keep);
      if next - 1 in m && keep(m[next - 1]) {
        assert KeysWhere(m, next, keep) == KeysWhere(m, next - 1, keep) + [next - 1];
        assert all == below + {next - 1} by {
          forall k ensures k in all <==> k in below + {next - 1} { }
        }
        assert next - 1 !in below;
      } else {
        assert KeysWhere(m, next, keep) == KeysWhere(m, next - 1, keep);
        assert all == below by {
          forall k ensures k in all <==> k in below { }
        }
      }
    }
  }

  /** A record stored under a key at or above `next` does not change the listing below `next`. */
  lemma {:induction false} KeysWhereIgnoresFrom<T>(m: map<int, T>, next: int, k: int, v: T, keep: T -> bool)
    requires next <= k
    ensures KeysWhere(m[k := v], next, keep) == KeysWhere(m, next, keep)
    decreases next
  {
    if next > 1 {
      KeysWhereIgnoresFrom(m, next - 1, k, v, keep);
    }
  }

  /** Storing a new matching record under the next id appends that id to the listing. */
  lemma KeysWhereAppend<T>(m: map<int, T>, next: int, v: T, keep: T -> bool)
    requires IdsBelow(m, next) && 1 <= next
    ensures KeysWhere(m[next := v], next + 1, keep)
         == KeysWhere(m, next, keep) + (if keep(v) then [next] else [])
  {
    KeysWhereIgnoresFrom(m, next, next, v, keep);
  }

  /** The stream map of a listing: `f` applied to each id of `ids` and its
      record, in the order given. */
  function MapIds<T, R>(m: map<int, T>, ids: seq<int>, f: (int, T) -> R): (rs: seq<R>)
    requires forall i :: 0 <= i < |ids| ==> ids[i] in m
    ensures |rs| == |ids|
    ensures forall i :: 0 <= i < |ids| ==> rs[i] == f(ids[i], m[ids[i]])
  {
    seq(|ids|, i requires 0 <= i < |ids| => f(ids[i], m[ids[i]]))
  }

  /** Mapping a listing extended by a record stored under a new id appends that
      record's image. */
  lemma MapIdsAppend<T, R>(m: map<int, T>, ids: seq<int>, id: int, v: T, f: (int, T) -> R)
    requires forall i :: 0 <= i < |ids| ==> ids[i] in m && ids[i] != id
    ensures MapIds(m[id := v], ids + [id], f) == MapIds(m, ids, f) + [f(id, v)]
  {
    assert forall i :: 0 <= i < |ids| ==> (ids + [id])[i] == ids[i];
  }
}
