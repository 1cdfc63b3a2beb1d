/**
 * CategoryAppService: plain create/read/update/delete of categories, guarded by
 * NotFound, with the store cascading a deleted category to its product links.
 */
module CategoryService {
  import opened Results
  import opened Database
  import ProductService

  /** CreateCategoryDto, also the update request. */
  datatype CategoryRequest = CategoryRequest(name: string)

  /** GetAllCategoriesAsync: every category, as stored. */
  function GetAllCategories(s: Store): (r: map<int, Category>)
    ensures r.Keys == s.categories.Keys
    ensures forall c :: c in r ==> r[c] == s.categories[c]
  {
    s.categories
  }

  /** GetCategoryByIdAsync. */
  function GetCategoryById(s: Store, id: int): (r: Result<Category>)
    ensures r.Err? <==> id !in s.categories
    ensures r.Err? ==> r.error == NotFound
    ensures r.Ok? ==> r.value == s.categories[id]
  {
    if id !in s.categories then Err(NotFound) else Ok(s.categories[id])
  }

  /** CreateCategoryAsync: saves one new category with the requested name. */
  function CreateCategory(s: Store, dto: CategoryRequest): (r: Outcome)
    ensures r.status.Failed? ==> r.store == s
    ensures r.status.Done? ==>
              && r.store.categories.Keys == s.categories.Keys + {s.nextCategoryId}
              && r.store.categories[s.nextCategoryId] == Category(dto.name)
              && (forall c :: c in s.categories && c != s.nextCategoryId ==> r.store.categories[c] == s.categories[c])
              && r.store.products == s.products && r.store.links == s.links
              && SameStock(s, r.store)
  {
    var id := s.nextCategoryId;
    Commit(s, s.(categories := s.categories[id := Category(dto.name)], nextCategoryId := id + 1))
  }

  /** On a valid store creation always succeeds, adds exactly one category, and keeps the
      store valid. */
  lemma CreateCategoryPreservesValid(s: Store, dto: CategoryRequest)
    requires Valid(s)
    ensures var r := CreateCategory(s, dto);
            && r.status.Done?
            && |r.store.categories| == |s.categories| + 1
            && Valid(r.store)
  {
    var id := s.nextCategoryId;
    var t := s.(categories := s.categories[id := Category(dto.name)], nextCategoryId := id + 1);
    WithNewCategoryValid(s, Category(dto.name));
    AddFreshCategory(s.categories, id, Category(dto.name));
    assert CreateCategory(s, dto) == Outcome(t, Done);
  }

  /** A category under the next key, with the counter moved past it, breaks no constraint
      and no invariant. */
  lemma WithNewCategoryValid(s: Store, c: Category)
    requires Valid(s)
    ensures Valid(s.(categories := s.categories[s.nextCategoryId := c], nextCategoryId := s.nextCategoryId + 1))
  {
    var t := s.(categories := s.categories[s.nextCategoryId := c], nextCategoryId := s.nextCategoryId + 1);
    assert ForeignKeysHold(t);
    assert KeysBelowCounters(t);
  }

  /** A key not yet in the table adds one row to it. */
  lemma AddFreshCategory(categories: map<int, Category>, id: int, c: Category)
    requires id !in categories
    ensures |categories[id := c]| == |categories| + 1
  {
    assert categories[id := c].Keys == categories.Keys + {id};
  }

  /** A created category is what the reads then return under its new key. */
  lemma CreatedCategoryIsListed(s: Store, dto: CategoryRequest)
    requires CreateCategory(s, dto).status.Done?
    ensures var t := CreateCategory(s, dto).store;
            && s.nextCategoryId in GetAllCategories(t)
            && GetCategoryById(t, s.nextCategoryId) == Ok(Category(dto.name))
            && (forall c :: c in GetAllCategories(s) ==> c in GetAllCategories(t))
  {
  }

  /** UpdateCategoryAsync: renames an existing category and changes nothing else. */
  function UpdateCategory(s: Store, id: int, dto: CategoryRequest): (r: Outcome)
    ensures id !in s.categories ==> r == Fail(s, NotFound)
    ensures r.status.Failed? ==> r.store == s
    ensures r.status.Done? ==>
              && id in s.categories
              && r.store.categories.Keys == s.categories.Keys
              && r.store.categories[id] == Category(dto.name)
              && (forall c :: c in s.categories && c != id ==> r.store.categories[c] == s.categories[c])
              && r.store.products == s.products && r.store.links == s.links
              && SameStock(s, r.store)
  {
    if id !in s.categories then Fail(s, NotFound)
    else Commit(s, s.(categories := s.categories[id := Category(dto.name)]))
  }

  /** On a valid store renaming succeeds exactly when the category exists. */
  lemma UpdateCategoryPreservesValid(s: Store, id: int, dto: CategoryRequest)
    requires Valid(s)
    ensures var r := UpdateCategory(s, id, dto);
            && (r.status.Done? <==> id in s.categories)
            && Valid(r.store)
  {
    var t := s.(categories := s.categories[id := Category(dto.name)]);
    if id in s.categories {
      assert ForeignKeysHold(t);
    }
  }

  /** DeleteCategoryAsync: removes the category; the store cascades to its product links,
      and the products themselves remain. */
  function DeleteCategory(s: Store, id: int): (r: Outcome)
    ensures id !in s.categories ==> r == Fail(s, NotFound)
    ensures r.status.Failed? ==> r.store == s
    ensures r.status.Done? ==>
              && id in s.categories
              && r.store.categories.Keys == s.categories.Keys - {id}
              && (forall c :: c in r.store.categories ==> r.store.categories[c] == s.categories[c])
              && (forall l :: l in r.store.links <==> l in s.links && l.categoryId != id)
              && r.store.products == s.products
              && SameStock(s, r.store)
  {
    if id !in s.categories then Fail(s, NotFound)
    else Commit(s, s.(categories := s.categories - {id}, links := set l | l in s.links && l.categoryId != id))
  }

  /** After a deletion the category reads as absent, and deleting it again is NotFound. */
  lemma DeletedCategoryIsGone(s: Store, id: int)
    requires DeleteCategory(s, id).status.Done?
    ensures var t := DeleteCategory(s, id).store;
            && id !in GetAllCategories(t)
            && GetCategoryById(t, id) == Err(NotFound)
            && DeleteCategory(t, id) == Fail(t, NotFound)
  {
  }

  /** On a valid store deleting an existing category always succeeds, keeps the store
      valid, and afterwards no product is listed under that category. */
  lemma DeleteCategoryPreservesValid(s: Store, id: int)
    requires Valid(s)
    ensures var r := DeleteCategory(s, id);
            && (r.status.Done? <==> id in s.categories)
            && Valid(r.store)
            && (r.status.Done? ==> ProductService.GetAllProducts(r.store, Some(id)) == map[])
  {
    if id in s.categories {
      var t := s.(categories := s.categories - {id}, links := set l | l in s.links && l.categoryId != id);
      assert ForeignKeysHold(t);
      assert Constraints(t);
    }
  }
}
