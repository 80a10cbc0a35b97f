/** The application use cases: build or load an entity, let it validate
    itself, then save or delete it through the repository. A PHP exception
    is a `Failure`; the repository after the call and the port calls made are
    part of the answer, so "nothing was saved" is a statement about both. */
module UseCases {
  import opened Wrappers
  import opened PhpStrings
  import opened Errors
  import opened Categories
  import opened Products
  import opened RepositoryCalls
  import CategoryNames
  import CR = InMemoryCategoryRepository
  import PR = InMemoryProductRepository

  datatype CreateCategoryDto = CreateCategoryDto(name: string, description: string)

  datatype CreateProductDto = CreateProductDto(
    name: string, price: real, categoryId: string, description: string)

  datatype UpdateProductDto = UpdateProductDto(
    id: string, name: string, price: real, categoryId: string, description: string)

  /** One execution: what it returned or threw, the repository afterwards
      and the port calls in order. */
  datatype Run<T, R> = Run(result: Result<T, Error>, repo: R, calls: seq<Call>)

  /** `CreateCategoryUseCase::execute`. The constructor's validation runs
      before `save`, so an invalid name saves nothing. */
  function CreateCategory(repo: CR.Repository, dto: CreateCategoryDto, freshId: string, now: nat)
    : (r: Run<Category, CR.Repository>)
    requires CR.Valid(repo)
    ensures CR.Valid(r.repo)
    ensures r.result.Success? <==> CategoryNames.Create(dto.name).Success?
    ensures r.result.Failure? ==>
      && r.result.error == CategoryNames.Create(dto.name).error
      && r.repo == repo && r.calls == []
    ensures r.result.Success? ==>
      var c := r.result.value;
      && c.id == freshId && c.name == Trim(dto.name) && c.description == dto.description
      && c.isActive && c.createdAt == now && c.updatedAt == now
      && CR.FindById(r.repo, freshId) == Some(c)
      && (forall id | id != freshId :: CR.FindById(r.repo, id) == CR.FindById(repo, id))
      && r.calls == [CategorySave(freshId)]
    ensures r.result.Success? && CR.FindById(repo, freshId).None? ==>
      |CR.FindAll(r.repo)| == |CR.FindAll(repo)| + 1
  {
    var created := Categories.Create(dto.name, dto.description, None, freshId, now);
    if created.Failure? then Run(Failure(created.error), repo, [])
    else
      var c := created.value;
      assert c.id == freshId && c.name == Trim(dto.name);
      var saved := CR.Save(repo, c);
      assert saved.1 == c && CR.FindById(saved.0, freshId) == Some(c);
      Run(Success(c), saved.0, [CategorySave(freshId)])
  }

  /** `CreateProductUseCase::execute`: no domain-service check is applied;
      a blank name wins over a negative price; the answer is whatever `save`
      returns. */
  function CreateProduct(repo: PR.Repository, dto: CreateProductDto, freshId: string, now: nat)
    : (r: Run<Product, PR.Repository>)
    requires PR.Valid(repo)
    ensures PR.Valid(r.repo)
    ensures IsPhpEmpty(Trim(dto.name)) ==> r.result == Failure(ProductNameEmpty)
    ensures !IsPhpEmpty(Trim(dto.name)) && dto.price < 0.0 ==> r.result == Failure(ProductPriceNegative)
    ensures r.result.Failure? ==> r.repo == repo && r.calls == []
    ensures r.result.Success? ==>
      var p := r.result.value;
      && p.name == dto.name && p.price == dto.price
      && p.categoryId == dto.categoryId && p.description == dto.description
      && p.createdAt == now && p.updatedAt == now
      && PR.FindById(r.repo, p.id) == Some(p)
      && (forall id | id != p.id :: PR.FindById(r.repo, id) == PR.FindById(repo, id))
      && r.calls == [ProductSave(freshId)]
    ensures r.result.Success? && PR.IsTruthy(freshId) ==> r.result.value.id == freshId
    ensures r.result.Success? <==> !IsPhpEmpty(Trim(dto.name)) && dto.price >= 0.0
  {
    var created := Products.Create(dto.name, dto.price, dto.categoryId, dto.description, None, freshId, now);
    if created.Failure? then Run(Failure(created.error), repo, [])
    else
      var p := created.value;
      var saved := PR.Save(repo, p, now);
      Run(Success(saved.1), saved.0, [ProductSave(p.id)])
  }

  /** The clock reading `now` is not earlier than any stored product's last
      update: the wall clock does not run backwards. */
  ghost predicate ClockNotBehind(repo: PR.Repository, now: nat) {
    forall id | id in repo.table.entries :: repo.table.entries[id].updatedAt <= now
  }

  /** `UpdateProductUseCase::execute`. The product is looked up first; then
      name, price, category and description are applied in that order and
      the result is saved. On any failure nothing is saved. */
  function UpdateProduct(repo: PR.Repository, dto: UpdateProductDto, now: nat)
    : (r: Run<Product, PR.Repository>)
    requires PR.Valid(repo) && ClockNotBehind(repo, now)
    ensures PR.Valid(r.repo) && ClockNotBehind(r.repo, now)
    ensures PR.FindById(repo, dto.id).None? ==>
      r.result == Failure(ProductNotFound) && r.repo == repo && r.calls == [ProductFindById(dto.id)]
    ensures PR.FindById(repo, dto.id).Some? && IsPhpEmpty(Trim(dto.name)) ==>
      r.result == Failure(ProductNameEmpty)
    ensures PR.FindById(repo, dto.id).Some? && !IsPhpEmpty(Trim(dto.name)) && dto.price < 0.0 ==>
      r.result == Failure(ProductPriceNegative)
    ensures r.result.Failure? ==> r.repo == repo
    ensures r.result.Success? ==>
      var before := PR.FindById(repo, dto.id).value;
      var p := r.result.value;
      && p == before.(name := dto.name, price := dto.price, categoryId := dto.categoryId,
                   description := dto.description, updatedAt := now)
      && PR.FindById(r.repo, dto.id) == Some(p)
      && (forall id | id != dto.id :: PR.FindById(r.repo, id) == PR.FindById(repo, id))
      && |PR.FindAll(r.repo)| == |PR.FindAll(repo)|
      && r.calls == [ProductFindById(dto.id), ProductSave(dto.id)]
    ensures r.result.Success? <==>
      PR.FindById(repo, dto.id).Some? && !IsPhpEmpty(Trim(dto.name)) && dto.price >= 0.0
  {
    var found := PR.FindById(repo, dto.id);
    if found.None? then Run(Failure(ProductNotFound), repo, [ProductFindById(dto.id)])
    else
      var existing := found.value;
      assert existing == repo.table.entries[dto.id];
      var updated := UpdateFields(existing, dto, now);
      if updated.Failure? then Run(Failure(updated.error), repo, [ProductFindById(dto.id)])
      else
        var p := updated.value;
        var saved := PR.Save(repo, p, now);
        SaveKeepsClock(repo, p, now);
        Run(Success(saved.1), saved.0, [ProductFindById(dto.id), ProductSave(p.id)])
  }

  /** Saving a product stamped no later than `now` keeps the clock ahead of
      every stored product. */
  lemma SaveKeepsClock(repo: PR.Repository, p: Product, now: nat)
    requires PR.Valid(repo) && ClockNotBehind(repo, now)
    requires Products.Valid(p) && p.updatedAt <= now
    ensures ClockNotBehind(PR.Save(repo, p, now).0, now)
  {
    var res := PR.Save(repo, p, now);
    var entries := res.0.table.entries;
    assert entries == repo.table.entries[res.1.id := res.1];
    forall id | id in entries ensures entries[id].updatedAt <= now {
      if id != res.1.id {
        assert entries[id] == repo.table.entries[id];
      }
    }
  }

  /** The four updates the use case applies to a loaded product. The clock
      does not move during one call, so each update stamps the same `now`. */
  function UpdateFields(p: Product, dto: UpdateProductDto, now: nat): (r: Result<Product, Error>)
    requires p.createdAt <= p.updatedAt <= now
    ensures IsPhpEmpty(Trim(dto.name)) ==> r == Failure(ProductNameEmpty)
    ensures !IsPhpEmpty(Trim(dto.name)) && dto.price < 0.0 ==> r == Failure(ProductPriceNegative)
    ensures r.Success? <==> !IsPhpEmpty(Trim(dto.name)) && dto.price >= 0.0
    ensures r.Success? ==>
      && r.value.id == p.id && r.value.createdAt == p.createdAt
      && r.value.name == dto.name && r.value.price == dto.price
      && r.value.categoryId == dto.categoryId && r.value.description == dto.description
      && r.value.updatedAt == now && Products.Valid(r.value)
  {
    var named :- Products.UpdateName(p, dto.name, now);
    var priced :- Products.UpdatePrice(named, dto.price, now);
    var moved := Products.UpdateCategory(priced, dto.categoryId, now);
    Success(Products.UpdateDescription(moved, dto.description, now))
  }

  /** `DeleteProductUseCase::execute`: one lookup, then one delete whose
      answer is returned. */
  function DeleteProduct(repo: PR.Repository, id: string): (r: Run<bool, PR.Repository>)
    requires PR.Valid(repo)
    ensures PR.Valid(r.repo)
    ensures PR.FindById(repo, id).None? ==>
      r.result == Failure(ProductNotFound) && r.repo == repo && r.calls == [ProductFindById(id)]
    ensures PR.FindById(repo, id).Some? ==>
      && r.result == Success(true)
      && PR.FindById(r.repo, id) == None
      && (forall other | other != id :: PR.FindById(r.repo, other) == PR.FindById(repo, other))
      && |PR.FindAll(r.repo)| + 1 == |PR.FindAll(repo)|
      && (exists i | 0 <= i < |PR.FindAll(repo)| && PR.FindAll(repo)[i].id == id ::
            PR.FindAll(r.repo) == PR.FindAll(repo)[..i] + PR.FindAll(repo)[i + 1..])
      && r.calls == [ProductFindById(id), ProductDelete(id)]
  {
    if PR.FindById(repo, id).None? then Run(Failure(ProductNotFound), repo, [ProductFindById(id)])
    else
      var deleted := PR.Delete(repo, id);
      assert deleted.0.table.entries.Keys == repo.table.entries.Keys - {id};
      Run(Success(deleted.1), deleted.0, [ProductFindById(id), ProductDelete(id)])
  }

  /** `ListProductsUseCase::execute`: one `findAll`, nothing changed; every
      stored product once, in the repository's order. */
  function ListProducts(repo: PR.Repository): (r: Run<seq<Product>, PR.Repository>)
    requires PR.Valid(repo)
    ensures r.repo == repo && r.calls == [ProductFindAll] && r.result.Success?
    ensures r.result.value == PR.FindAll(repo)
    ensures forall p | p in r.result.value :: PR.FindById(repo, p.id) == Some(p)
    ensures forall id | PR.FindById(repo, id).Some? :: PR.FindById(repo, id).value in r.result.value
    ensures forall i, j | 0 <= i < j < |r.result.value| :: r.result.value[i].id != r.result.value[j].id
    ensures repo.table.entries == map[] ==> r.result.value == []
  {
    Run(Success(PR.FindAll(repo)), repo, [ProductFindAll])
  }

  /** `FindProductsByCategoryUseCase::execute`: one `findByCategoryId`,
      nothing changed; exactly the products of that category. */
  function FindProductsByCategory(repo: PR.Repository, categoryId: string)
    : (r: Run<seq<Product>, PR.Repository>)
    requires PR.Valid(repo)
    ensures r.repo == repo && r.calls == [ProductFindByCategoryId(categoryId)] && r.result.Success?
    ensures r.result.value == PR.FindByCategoryId(repo, categoryId)
    ensures forall i, j | 0 <= i < j < |r.result.value| :: r.result.value[i].id != r.result.value[j].id
    ensures forall p | p in r.result.value ::
      p.categoryId == categoryId && PR.FindById(repo, p.id) == Some(p)
    ensures forall id | PR.FindById(repo, id).Some? && PR.FindById(repo, id).value.categoryId == categoryId ::
      PR.FindById(repo, id).value in r.result.value
    ensures (forall id | PR.FindById(repo, id).Some? :: PR.FindById(repo, id).value.categoryId != categoryId)
      ==> r.result.value == []
  {
    var ps := PR.FindByCategoryId(repo, categoryId);
    assert ps != [] ==> ps[0] in ps;
    Run(Success(ps), repo, [ProductFindByCategoryId(categoryId)])
  }

  /** A created product is listed, and is found under its category; under
      a new id it comes after every product listed before. */
  lemma CreatedProductIsListed(repo: PR.Repository, dto: CreateProductDto, freshId: string, now: nat)
    requires PR.Valid(repo)
    requires CreateProduct(repo, dto, freshId, now).result.Success?
    ensures var r := CreateProduct(repo, dto, freshId, now);
      && r.result.value in ListProducts(r.repo).result.value
      && r.result.value in FindProductsByCategory(r.repo, dto.categoryId).result.value
    ensures var r := CreateProduct(repo, dto, freshId, now);
      PR.FindById(repo, r.result.value.id).None? ==>
        ListProducts(r.repo).result.value == ListProducts(repo).result.value + [r.result.value]
  {
  }

  /** A deleted product is neither listed nor found under its category, and
      deleting it a second time reports it missing. */
  lemma DeletedProductIsGone(repo: PR.Repository, id: string, categoryId: string)
    requires PR.Valid(repo) && PR.FindById(repo, id).Some?
    ensures var r := DeleteProduct(repo, id);
      && (forall p | p in ListProducts(r.repo).result.value :: p.id != id)
      && (forall p | p in FindProductsByCategory(r.repo, categoryId).result.value :: p.id != id)
      && DeleteProduct(r.repo, id).result == Failure(ProductNotFound)
  {
  }

  /** Updating a product and then updating it again with the same data
      stores the same fields; only the timestamp follows the clock. */
  lemma UpdateIsIdempotent(repo: PR.Repository, dto: UpdateProductDto, t1: nat, t2: nat)
    requires PR.Valid(repo) && ClockNotBehind(repo, t1) && t1 <= t2
    requires UpdateProduct(repo, dto, t1).result.Success?
    ensures var r1 := UpdateProduct(repo, dto, t1);
      var r2 := UpdateProduct(r1.repo, dto, t2);
      && r2.result.Success?
      && r2.result.value == r1.result.value.(updatedAt := t2)
  {
  }
}
