# Blog API domain services, modelled in Dafny

This project models the three domain services of a Spring blog REST API:
`CategoryService`, `PostService` and `CommentService`. Each service runs
existence checks, overwrites a fixed set of fields, relinks a post to a
category or a comment to a post, or removes one record. It works on three
repositories (categories, posts, comments). Here those repositories are maps
keyed by id.

Layout:

- `entities.dfy`, module `Entities`: the stored records (`Category`, `Post`,
  `Comment`), request and response bodies, and the error kinds (`NotFound` is
  `ResourceNotFoundException`). It also holds `Tables`, the repositories as one
  value: three maps, a next-id counter per table, and the latest clock
  reading. Two invariants sit here. `Valid` says every stored id lies between
  1 and its table's next-id counter, and no timestamp lies after the clock.
  `Linked` says every post's category and every comment's post exist. That
  ids are never reused is stated by the create operations: each issues its
  table's counter, above every id stored, and advances it. `KeysWhere` is
  the repositories' `findAll` / `findByCategoryId` / `findByPostId`: the
  matching keys in ascending id order, which is insertion order (a choice of
  this model; see "Left out").
- `store.dfy`, module `Store`: class `Database`, the mutable repositories. It
  holds map fields that its methods reassign, the id generators used by
  `save` of a new entity, `Now` (one `LocalDateTime.now()` call), and
  `Restore` (a rolled-back transaction).
- `category.dfy`, `post.dfy`, `comment.dfy`: one pair of modules per
  service. `CategorySpec` / `PostSpec` / `CommentSpec` give each operation as
  a function from the tables before the call to a `Step`: the result and the
  tables after. Their `ensures` state the error conditions and the frame
  (which fields change, that nothing else does). `CategoryService` /
  `PostService` / `CommentService` hold the imperative methods over a
  `Database`. Like the Java code, they look up, set fields one by one, and
  save. Each method is proved to produce exactly the `Step` its function
  gives.
- `blog.dfy`, module `Blog`: properties across operations. A created
  post or comment is listed last. A renamed category is seen through its
  posts. Deleting a category orphans its posts. Deleting twice fails. A
  whole create/list/delete session runs from an empty database.

Modelling choices:

- Time is an abstract `nat` clock. Each `now()` call takes an `elapsed`
  parameter: the time that passes before that reading. So readings never
  decrease, and two successive readings may be equal.
- Delete policy: orphan. The services' deletes check nothing about
  dependents, and a map-backed repository enforces no foreign keys. So
  deleting a category leaves its posts in place, and deleting a post leaves
  its comments in place. A post whose category is gone cannot be turned into
  a response. Reading it fails with `DanglingReference`, the persistence
  layer's error. `DeleteCategory` and `DeletePost` state exactly when the
  referential invariant `Linked` survives: when no record depends on the
  deleted one.
- On every error path the tables, clock included, are left unchanged (the
  services are `@Transactional`). `updatePost` saves before it builds the
  response. When that response cannot be built, the method rolls back.
- `createPost` reads the clock twice (PostService.java:50-51), so createdAt
  and updatedAt can differ. The model promises only createdAt <= updatedAt.

## Model

| member | source | states |
|---|---|---|
| `Entities.KeysWhere` | src/main/java/com/blogapi/repository/PostRepository.java:13 | the listed ids are exactly the stored keys whose record matches, strictly ascending (insertion order) |
| `Entities.KeysWhereCount` | src/main/java/com/blogapi/repository/PostRepository.java:13 | a listing has one entry per matching record |
| `Entities.MapIds` | src/main/java/com/blogapi/service/CategoryService.java:24-26 | the stream map of a listing gives one response per id, in the given order, each the mapped image of that id's record |
| `Entities.MapIdsAppend` | src/main/java/com/blogapi/service/CommentService.java:31-33 | mapping a listing extended by a newly stored id extends the responses by that record's image and changes none of the earlier ones |
| `Store.Database.Now` | src/main/java/com/blogapi/service/PostService.java:50-51 | a clock reading is the previous reading plus the elapsed time, and becomes the clock |
| `Store.Database.InsertCategory` | src/main/java/com/blogapi/service/CategoryService.java:40 | saving a new category stores it under the next generated id and advances the generator |
| `Store.Database.InsertPost` | src/main/java/com/blogapi/service/PostService.java:53 | saving a new post stores it under the next generated id and advances the generator |
| `Store.Database.InsertComment` | src/main/java/com/blogapi/service/CommentService.java:46 | saving a new comment stores it under the next generated id and advances the generator |
| `Store.Database.Restore` | src/main/java/com/blogapi/service/PostService.java:22 | a rollback puts back the whole database as it was at the snapshot |
| `CategorySpec.MapToResponse` | src/main/java/com/blogapi/service/CategoryService.java:62-68 | the response reads back as the same id, name and description: nothing is altered or lost |
| `CategorySpec.AllIds` | src/main/java/com/blogapi/service/CategoryService.java:24 | findAll lists every stored category id exactly once, ascending |
| `CategorySpec.GetAllCategories` | src/main/java/com/blogapi/service/CategoryService.java:23-27 | every response is mapToResponse of a stored category, every stored category appears, in insertion order |
| `CategorySpec.GetAllCategoriesCount` | src/main/java/com/blogapi/service/CategoryService.java:23-27 | exactly one response per stored category |
| `CategorySpec.GetCategoryById` | src/main/java/com/blogapi/service/CategoryService.java:29-33 | NotFound iff the id is absent; otherwise the stored name and description |
| `CategorySpec.CreateCategory` | src/main/java/com/blogapi/service/CategoryService.java:35-42 | always succeeds; the new category gets the next generated id, above every stored id, with the requested name and description; the new state is the old one with that category added and the category counter advanced, nothing else; invariants kept |
| `CategorySpec.UpdateCategory` | src/main/java/com/blogapi/service/CategoryService.java:44-53 | NotFound iff absent, then no change; otherwise name and description both overwritten (a missing description too), id kept, nothing else changes |
| `CategorySpec.DeleteCategory` | src/main/java/com/blogapi/service/CategoryService.java:55-60 | NotFound iff absent, then no change; otherwise exactly that category is removed, no post changes; referential integrity survives iff no post referenced it |
| `CategorySpec.CreateThenGet` | src/test/java/com/blogapi/service/CategoryServiceTest.java:47-65 | reading a category right after creating it returns the requested name and description |
| `CategorySpec.DeleteTwice` | src/main/java/com/blogapi/service/CategoryService.java:55-60 | a second delete of the same id fails NotFound and changes nothing |
| `CategoryService.GetAllCategories` | src/main/java/com/blogapi/service/CategoryService.java:23-27 | returns exactly the listing of `CategorySpec.GetAllCategories` |
| `CategoryService.GetCategoryById` | src/main/java/com/blogapi/service/CategoryService.java:29-33 | returns exactly the result of `CategorySpec.GetCategoryById` |
| `CategoryService.CreateCategory` | src/main/java/com/blogapi/service/CategoryService.java:35-42 | the result and new database are those of `CategorySpec.CreateCategory` on the old one |
| `CategoryService.UpdateCategory` | src/main/java/com/blogapi/service/CategoryService.java:44-53 | the result and new database are those of `CategorySpec.UpdateCategory` on the old one |
| `CategoryService.DeleteCategory` | src/main/java/com/blogapi/service/CategoryService.java:55-60 | the result and new database are those of `CategorySpec.DeleteCategory` on the old one |
| `PostSpec.Present` | src/main/java/com/blogapi/service/PostService.java:95-106 | the response reads back as the same id and post record, and carries the category's name |
| `PostSpec.MapToResponse` | src/main/java/com/blogapi/service/PostService.java:95-106 | succeeds iff the post's category exists, giving the post's fields and that category's current name; otherwise DanglingReference |
| `PostSpec.GetPostById` | src/main/java/com/blogapi/service/PostService.java:34-38 | NotFound iff the id is absent; otherwise mapToResponse of the stored post, which cannot fail while references are intact |
| `PostSpec.CreatePost` | src/main/java/com/blogapi/service/PostService.java:40-55 | NotFound iff the category is absent, then no change; otherwise the new post gets the next generated id, above every stored id, with the requested fields and category, clock <= createdAt <= updatedAt; the new state is the old one with that post added, the post counter advanced and the clock at updatedAt, nothing else; invariants kept |
| `PostSpec.UpdatePost` | src/main/java/com/blogapi/service/PostService.java:57-75 | NotFound on an absent post; category looked up only when the id differs, NotFound if that lookup fails; otherwise title, content and author overwritten, category relinked, updatedAt advanced to the clock and never decreasing, id and createdAt kept; the new state is the old one with that post replaced and the clock at updatedAt, nothing else, counters included; every error leaves the tables unchanged |
| `PostSpec.DeletePost` | src/main/java/com/blogapi/service/PostService.java:77-82 | NotFound iff absent, then no change; otherwise exactly that post is removed; referential integrity survives iff no comment referenced it |
| `PostSpec.IdsInCategory` | src/main/java/com/blogapi/repository/PostRepository.java:13 | findByCategoryId lists exactly the posts of that category, ascending |
| `PostSpec.GetPostsByCategory` | src/main/java/com/blogapi/service/PostService.java:84-93 | NotFound iff the category is absent; otherwise one response per post of that category and no others, each with that category's id and name, in insertion order |
| `PostService.GetPostById` | src/main/java/com/blogapi/service/PostService.java:34-38 | returns exactly the result of `PostSpec.GetPostById` |
| `PostService.CreatePost` | src/main/java/com/blogapi/service/PostService.java:40-55 | the result and new database are those of `PostSpec.CreatePost` on the old one |
| `PostService.UpdatePost` | src/main/java/com/blogapi/service/PostService.java:57-75 | the result and new database are those of `PostSpec.UpdatePost` on the old one, including the rollback |
| `PostService.DeletePost` | src/main/java/com/blogapi/service/PostService.java:77-82 | the result and new database are those of `PostSpec.DeletePost` on the old one |
| `PostService.GetPostsByCategory` | src/main/java/com/blogapi/service/PostService.java:84-93 | returns exactly the result of `PostSpec.GetPostsByCategory` |
| `CommentSpec.MapToResponse` | src/main/java/com/blogapi/service/CommentService.java:68-75 | the response, together with the comment's post id, reads back as the same id and comment |
| `CommentSpec.MapToResponseIgnoresPost` | src/main/java/com/blogapi/service/CommentService.java:68-75 | two comments give the same response iff they differ at most in their post: no post reference is exposed |
| `CommentSpec.IdsOfPost` | src/main/java/com/blogapi/service/CommentService.java:31 | findByPostId lists exactly the comments of that post, ascending |
| `CommentSpec.GetCommentsByPostId` | src/main/java/com/blogapi/service/CommentService.java:27-34 | NotFound iff the post is absent; otherwise one response per comment of that post and no others, in insertion order |
| `CommentSpec.AddComment` | src/main/java/com/blogapi/service/CommentService.java:36-48 | NotFound iff the post is absent, then nothing stored; otherwise the new comment gets the next generated id, above every stored id, with the requested content and author, linked to the post, createdAt the clock reading; the new state is the old one with that comment added, the comment counter advanced and the clock at createdAt, nothing else |
| `CommentSpec.UpdateComment` | src/main/java/com/blogapi/service/CommentService.java:50-59 | NotFound iff absent, then no change; otherwise only content and author change, id, createdAt and post kept |
| `CommentSpec.DeleteComment` | src/main/java/com/blogapi/service/CommentService.java:61-66 | NotFound iff absent, then no change; otherwise exactly that comment is removed |
| `CommentSpec.DeleteTwice` | src/main/java/com/blogapi/service/CommentService.java:61-66 | a second delete of the same id fails NotFound and changes nothing |
| `CommentService.GetCommentsByPostId` | src/main/java/com/blogapi/service/CommentService.java:27-34 | returns exactly the result of `CommentSpec.GetCommentsByPostId` |
| `CommentService.AddComment` | src/main/java/com/blogapi/service/CommentService.java:36-48 | the result and new database are those of `CommentSpec.AddComment` on the old one |
| `CommentService.UpdateComment` | src/main/java/com/blogapi/service/CommentService.java:50-59 | the result and new database are those of `CommentSpec.UpdateComment` on the old one |
| `CommentService.DeleteComment` | src/main/java/com/blogapi/service/CommentService.java:61-66 | the result and new database are those of `CommentSpec.DeleteComment` on the old one |
| `Blog.CreatePostIsListedLast` | src/main/java/com/blogapi/service/PostService.java:84-93 | after createPost, its category's listing is the old listing plus the new post's response at the end |
| `Blog.AddCommentIsListedLast` | src/main/java/com/blogapi/service/CommentService.java:27-48 | after addComment, the post's comment listing is the old listing plus the new comment's response at the end |
| `Blog.PostsByCategoryCount` | src/main/java/com/blogapi/service/PostService.java:84-93 | getPostsByCategory returns as many responses as the category has posts |
| `Blog.UpdatePostThenGet` | src/main/java/com/blogapi/service/PostService.java:57-75 | after a successful update, getPostById returns the same response, with the requested category's id and name |
| `Blog.UpdateCategoryRenamesPosts` | src/main/java/com/blogapi/service/PostService.java:101-102 | after renaming a category, every post in it reads back with the new category name |
| `Blog.DeleteCategoryOrphansPosts` | src/main/java/com/blogapi/service/CategoryService.java:55-60 | deleting a category keeps the post table as it was, and reading one of its posts then fails with DanglingReference |
| `Blog.DeletePostTwice` | src/main/java/com/blogapi/service/PostService.java:77-82 | a second delete of the same post fails NotFound and changes nothing |
| `Blog.CategoryIdNotReused` | src/main/java/com/blogapi/service/CategoryService.java:35-60 | a category created after the previous one was deleted gets a strictly larger id: deleted ids are never issued again |
| `Blog.PostIdNotReused` | src/main/java/com/blogapi/service/PostService.java:40-82 | a post created after the previous one was deleted gets a strictly larger id |
| `Blog.CommentIdNotReused` | src/main/java/com/blogapi/service/CommentService.java:36-66 | a comment added after the previous one was deleted gets a strictly larger id |
| `Blog.Session` | src/main/java/com/blogapi/service/PostService.java:40-55 | on an empty database: category "Technology" gets id 1, a post in it shows categoryId 1 and that name, its one comment is listed, and after the category is deleted the post cannot be read |

## Left out

- Controllers: HTTP routing, status codes, logging and triggering of `@Valid`. They are thin framework adapters.
- `getAllPosts` (PostService.java:29-32): paging and sorting are done entirely by Spring Data's `findAll(Pageable)`. The paged `findByCategoryId` overload is unused by the services.
- Bean Validation (`@NotBlank`, `@NotNull` on the request bodies): the framework enforces it before a service runs. The request datatypes assume it already passed; `categoryId` is never null.
- JPA and Hibernate internals: transaction isolation, lazy loading and foreign-key or cascade behaviour on delete. The model assumes counter-generated ids, all-or-nothing on error, and the orphan policy described above. The entity classes, with their cascade mappings, and the source files of the category and comment repositories are not part of this model, which is why the delete policy is a choice; their `findAll`, `findByPostId`, `save`, `existsById` and `deleteById` are modelled by the tables and `KeysWhere`.
- Listing order: `findAll`, `findByCategoryId` and `findByPostId` promise no order without a `Sort`. The model lists records in ascending id order, which is insertion order; the listing properties (`Blog.CreatePostIsListedLast`, `Blog.AddCommentIsListedLast`) depend on that choice.
- Ids are unbounded integers. Overflow of the 64-bit `Long` id generator is not modelled.
- `LocalDateTime` wall-clock semantics. Time is an abstract non-decreasing `nat`, and the elapsed time before each reading is a parameter.
- Exception messages: an error carries the entity kind and the id, which is all the message text is built from.
- Concurrent requests. Each call is one atomic step on the tables.
- SwaggerConfig: API documentation only.
