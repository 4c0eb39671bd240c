/** CategoryService as transitions on the tables: what each call returns and
    what the tables are afterwards. */
module CategorySpec {
  import opened Entities

  /** Reads a response back as the id and record it was made from. */
  function FromResponse(r: CategoryResponse): (int, Category)
  {
    (r.id, Category(r.name, r.description))
  }

  /** mapToResponse: the response carries the id, name and description unchanged. */
  function MapToResponse(id: int, c: Category): (r: CategoryResponse)
    ensures FromResponse(r) == (id, c)
  {
    CategoryResponse(id, c.name, c.description)
  }

  /** The ids of all categories, in insertion order. */
  function AllIds(t: Tables): (ids: seq<int>)
    requires Valid(t)
    ensures forall k :: k in ids <==> k in t.categories
    ensures forall i, j :: 0 <= i < j < |ids| ==> ids[i] < ids[j]
  {
    KeysWhere(t.categories, t.nextCategoryId, (c: Category) => true)
  }

  /** getAllCategories: one response per stored category, in insertion order. */
  function GetAllCategories(t: Tables): (r: seq<CategoryResponse>)
    requires Valid(t)
    ensures forall i :: 0 <= i < |r| ==> r[i].id in t.categories && r[i] == MapToResponse(r[i].id, t.categories[r[i].id])
    ensures forall k :: k in t.categories ==> exists i :: 0 <= i < |r| && r[i].id == k
    ensures forall i, j :: 0 <= i < j < |r| ==> r[i].id < r[j].id
  {
    var ids := AllIds(t);
    assert forall i :: 0 <= i < |ids| ==> ids[i] in ids;
    var r := MapIds(t.categories, ids, MapToResponse);
    assert forall i :: 0 <= i < |ids| ==> r[i].id == ids[i];
    assert forall k :: k in t.categories ==> k in ids && exists i :: 0 <= i < |ids| && ids[i] == k;
    r
  }

  /** getAllCategories lists as many responses as there are stored categories. */
  lemma GetAllCategoriesCount(t: Tables)
    requires Valid(t)
    ensures |GetAllCategories(t)| == |t.categories|
  {
    KeysWhereCount(t.categories, t.nextCategoryId, (c: Category) => true);
    assert Matching(t.categories, t.nextCategoryId, (c: Category) => true) == t.categories.Keys;
  }

  /** getCategoryById: NotFound exactly when the id is absent, else the stored record. */
  function GetCategoryById(t: Tables, id: int): (r: Result<CategoryResponse>)
    ensures r.Err? <==> id !in t.categories
    ensures r.Err? ==> r.error == NotFound(CategoryEntity, id)
    ensures r.Ok? ==> r.value.id == id && r.value.name == t.categories[id].name
                      && r.value.description == t.categories[id].description
  {
    if id in t.categories then Ok(MapToResponse(id, t.categories[id])) else Err(NotFound(CategoryEntity, id))
  }

  /** createCategory: stores exactly one new category under the next generated
      id, which is above every id issued so far, and advances that counter;
      nothing else changes. */
  function CreateCategory(t: Tables, req: CategoryRequest): (s: Step<CategoryResponse>)
    requires Valid(t)
    ensures s.result.Ok? && Valid(s.after)
    ensures var id := s.result.value.id;
      && id == t.nextCategoryId && id !in t.categories
      && (forall k :: k in t.categories ==> k < id)
      && s.result.value.name == req.name && s.result.value.description == req.description
      && s.after == t.(categories := t.categories[id := Category(req.name, req.description)],
                       nextCategoryId := id + 1)
    ensures Linked(t) ==> Linked(s.after)
  {
    var id := t.nextCategoryId;
    var c := Category(req.name, req.description);
    Step(Ok(MapToResponse(id, c)), t.(categories := t.categories[id := c], nextCategoryId := id + 1))
  }

  /** updateCategory: NotFound with no change when the id is absent; otherwise
      name and description are both overwritten (a missing description too). */
  function UpdateCategory(t: Tables, id: int, req: CategoryRequest): (s: Step<CategoryResponse>)
    requires Valid(t)
    ensures Valid(s.after)
    ensures s.result.Err? <==> id !in t.categories
    ensures s.result.Err? ==> s.result.error == NotFound(CategoryEntity, id) && s.after == t
    ensures s.result.Ok? ==>
      && s.result.value == CategoryResponse(id, req.name, req.description)
      && s.after == t.(categories := t.categories[id := Category(req.name, req.description)])
    ensures Linked(t) ==> Linked(s.after)
  {
    if id !in t.categories then Step(Err(NotFound(CategoryEntity, id)), t)
    else
      var c := t.categories[id].(name := req.name, description := req.description);
      Step(Ok(MapToResponse(id, c)), t.(categories := t.categories[id := c]))
  }

  /** deleteCategory: NotFound with no change when the id is absent; otherwise
      exactly that category is removed. No check is made for posts that still
      reference it, and no post changes. */
  function DeleteCategory(t: Tables, id: int): (s: Step<()>)
    requires Valid(t)
    ensures Valid(s.after)
    ensures s.result.Err? <==> id !in t.categories
    ensures s.result.Err? ==> s.result.error == NotFound(CategoryEntity, id) && s.after == t
    ensures s.result.Ok? ==> s.after == t.(categories := t.categories - {id})
    ensures s.result.Ok? && Linked(t) ==>
      (Linked(s.after) <==> forall k :: k in t.posts ==> t.posts[k].categoryId != id)
  {
    if id !in t.categories then Step(Err(NotFound(CategoryEntity, id)), t)
    else Step(Ok(()), t.(categories := t.categories - {id}))
  }

  /** A category read right after it was created has the requested name and description. */
  lemma CreateThenGet(t: Tables, req: CategoryRequest)
    requires Valid(t)
    ensures var s := CreateCategory(t, req);
      GetCategoryById(s.after, s.result.value.id) == Ok(CategoryResponse(s.result.value.id, req.name, req.description))
  {
  }

  /** Deleting a category twice fails the second time, with no further change. */
  lemma DeleteTwice(t: Tables, id: int)
    requires Valid(t)
    ensures var s := DeleteCategory(t, id);
      DeleteCategory(s.after, id) == Step(Err(NotFound(CategoryEntity, id)), s.after)
  {
  }
}

/** CategoryService: the service methods over the database. They follow the Java code
    step by step, so a read-only method computes what its specification
    function computes, and each one is proved equal to it. */
module CategoryService {
  import opened Entities
  import opened Store
  import CategorySpec

  method GetAllCategories(db: Database) returns (r: seq<CategoryResponse>)
    requires Valid(db.State())
    ensures r == CategorySpec.GetAllCategories(db.State())
  {
    var ids := KeysWhere(db.categories, db.nextCategoryId, (c: Category) => true);
    r := MapIds(db.categories, ids, CategorySpec.MapToResponse);
  }

  method GetCategoryById(db: Database, id: int) returns (r: Result<CategoryResponse>)
    ensures r == CategorySpec.GetCategoryById(db.State(), id)
  {
    if id !in db.categories {
      return Err(NotFound(CategoryEntity, id));
    }
    r := Ok(CategorySpec.MapToResponse(id, db.categories[id]));
  }

  method CreateCategory(db: Database, req: CategoryRequest) returns (r: Result<CategoryResponse>)
    requires Valid(db.State())
    modifies db
    ensures Step(r, db.State()) == CategorySpec.CreateCategory(old(db.State()), req)
  {
    var category := Category("", None);
    category := category.(name := req.name);
    category := category.(description := req.description);
    var id := db.InsertCategory(category);
    r := Ok(CategorySpec.MapToResponse(id, category));
  }

  method UpdateCategory(db: Database, id: int, req: CategoryRequest) returns (r: Result<CategoryResponse>)
    requires Valid(db.State())
    modifies db
    ensures Step(r, db.State()) == CategorySpec.UpdateCategory(old(db.State()), id, req)
  {
    if id !in db.categories {
      return Err(NotFound(CategoryEntity, id));
    }
    var category := db.categories[id];
    category := category.(name := req.name);
    category := category.(description := req.description);
    db.categories := db.categories[id := category];
    r := Ok(CategorySpec.MapToResponse(id, category));
  }

  method DeleteCategory(db: Database, id: int) returns (r: Result<()>)
    requires Valid(db.State())
    modifies db
    ensures Step(r, db.State()) == CategorySpec.DeleteCategory(old(db.State()), id)
  {
    if id !in db.categories {
      return Err(NotFound(CategoryEntity, id));
    }
    db.categories := db.categories - {id};
    r := Ok(());
  }
}
