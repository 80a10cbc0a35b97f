/** The calls a service or use case makes on the repository ports, in the
    order it makes them. Only the observable order and number of calls is
    recorded; the answers come from the in-memory models. */
module RepositoryCalls {
  datatype Call =
    | CategoryFindById(id: string)
    | CategorySave(id: string)
    | ProductFindById(id: string)
    | ProductFindAll
    | ProductFindByCategoryId(categoryId: string)
    | ProductSave(id: string)
    | ProductDelete(id: string)
}

/** `CategoryDomainService`: read-only policy predicates over the category
    repository. Each is a function of the repository value, so none of them
    can change it. */
module CategoryService {
  import opened Wrappers
  import opened Sequences
  import opened Categories
  import CR = InMemoryCategoryRepository

  /** `i` is the position of the first category named `name`. */
  ghost predicate FirstWithName(cs: seq<Category>, i: int, name: string) {
    && 0 <= i < |cs|
    && cs[i].name == name
    && forall j | 0 <= j < i :: cs[j].name != name
  }

  /** `isCategoryNameUnique`: the name is free unless the first category
      carrying it (in insertion order) is someone other than the excluded
      id. Later categories with the same name are never looked at. */
  function IsCategoryNameUnique(repo: CR.Repository, name: string, exclude: Option<string>): (r: bool)
    requires CR.Valid(repo)
    ensures r <==> forall i | FirstWithName(CR.FindAll(repo), i, name) ::
                     exclude == Some(CR.FindAll(repo)[i].id)
    ensures (forall c | c in CR.FindAll(repo) :: c.name != name) ==> r
  {
    var all := CR.FindAll(repo);
    match CR.FindByName(repo, name)
    case None =>
      assert forall i | 0 <= i < |all| :: all[i] in all;
      true
    case Some(c) =>
      var k :| 0 <= k < |all| && all[k] == c && c.name == name
                && forall j | 0 <= j < k :: all[j].name != name;
      assert FirstWithName(all, k, name);
      assert forall i | FirstWithName(all, i, name) :: i == k;
      exclude.Some? && c.id == exclude.value
  }

  /** `canCreateCategory`: the same answer as `isCategoryNameUnique`. */
  function CanCreateCategory(repo: CR.Repository, name: string, exclude: Option<string>): (r: bool)
    requires CR.Valid(repo)
    ensures r <==> forall i | FirstWithName(CR.FindAll(repo), i, name) ::
                     exclude == Some(CR.FindAll(repo)[i].id)
  {
    IsCategoryNameUnique(repo, name, exclude)
  }

  /** Only the first category with a name is consulted: when two categories
      share it, excluding the later one still reports a clash. */
  lemma DuplicateNameStillClashes(repo: CR.Repository, name: string, i: nat, k: nat)
    requires CR.Valid(repo)
    requires FirstWithName(CR.FindAll(repo), i, name)
    requires i < k < |CR.FindAll(repo)| && CR.FindAll(repo)[k].name == name
    ensures !IsCategoryNameUnique(repo, name, Some(CR.FindAll(repo)[k].id))
    ensures IsCategoryNameUnique(repo, name, Some(CR.FindAll(repo)[i].id))
  {
  }

  /** `canActivateCategory`: the category exists and is inactive. */
  function CanActivateCategory(repo: CR.Repository, id: string): (r: bool)
    requires CR.Valid(repo)
    ensures r <==> exists c | c in CR.FindAll(repo) :: c.id == id && !c.isActive
  {
    match CR.FindById(repo, id)
    case None => false
    case Some(c) => !c.isActive
  }

  /** `canDeactivateCategory`: the category exists and is active. */
  function CanDeactivateCategory(repo: CR.Repository, id: string): (r: bool)
    requires CR.Valid(repo)
    ensures r <==> exists c | c in CR.FindActive(repo) :: c.id == id
  {
    match CR.FindById(repo, id)
    case None => false
    case Some(c) => c.isActive
  }

  /** For a stored id exactly one of the two holds; for an unknown id
      neither does. */
  lemma ActivationChoices(repo: CR.Repository, id: string)
    requires CR.Valid(repo)
    ensures CR.FindById(repo, id).Some? ==>
      CanActivateCategory(repo, id) != CanDeactivateCategory(repo, id)
    ensures CR.FindById(repo, id).None? ==>
      !CanActivateCategory(repo, id) && !CanDeactivateCategory(repo, id)
  {
  }

  /** Saving a deactivated category makes it eligible for activation and
      no longer for deactivation, and the other way round. */
  lemma SavedStateDecides(repo: CR.Repository, c: Category, now: nat)
    requires CR.Valid(repo)
    ensures var r1 := CR.Save(repo, Deactivate(c, now)).0;
      CanActivateCategory(r1, c.id) && !CanDeactivateCategory(r1, c.id)
    ensures var r1 := CR.Save(repo, Activate(c, now)).0;
      !CanActivateCategory(r1, c.id) && CanDeactivateCategory(r1, c.id)
  {
  }

  datatype Statistics = Statistics(total: int, active: int, inactive: int)

  /** `getCategoryStatistics`: the inactive count is computed as a
      difference, and it is exactly the number of inactive categories. */
  function CategoryStatistics(repo: CR.Repository): (s: Statistics)
    requires CR.Valid(repo)
    ensures s.total == |CR.FindAll(repo)| && s.active == |CR.FindActive(repo)|
    ensures s.inactive == |Filter(CR.FindAll(repo), CR.IsInactive)|
    ensures 0 <= s.inactive && s.active + s.inactive == s.total
  {
    var all := CR.FindAll(repo);
    var active := CR.FindActive(repo);
    FilterComplement(all, CR.IsActive, CR.IsInactive);
    Statistics(|all|, |active|, |all| - |active|)
  }

  /** `hasProducts`: the source never consults the products and always
      answers no. */
  function HasProducts(categoryId: string): (r: bool)
    ensures !r
  {
    false
  }

  /** `canDeleteCategory`: since `hasProducts` is always false, a category
      can be deleted exactly when it exists. */
  function CanDeleteCategory(repo: CR.Repository, id: string): (r: bool)
    requires CR.Valid(repo)
    ensures r <==> exists c | c in CR.FindAll(repo) :: c.id == id
  {
    match CR.FindById(repo, id)
    case None => false
    case Some(c) => !HasProducts(id)
  }
}

/** Sums, extremes and means of product prices, in exact arithmetic. */
module PriceStatistics {
  import opened Products

  /** The sum of the prices, in order. */
  function Sum(ps: seq<Product>): real {
    if ps == [] then 0.0 else ps[0].price + Sum(ps[1..])
  }

  /** `k` copies of `x` added up: multiplication by a count, kept linear
      for the solver. */
  function Scaled(x: real, k: nat): (r: real) {
    if k == 0 then 0.0 else Scaled(x, k - 1) + x
  }

  lemma {:induction false} ScaledIsProduct(x: real, k: nat)
    ensures Scaled(x, k) == x * k as real
  {
    if k > 0 {
      ScaledIsProduct(x, k - 1);
      Distribute(x, (k - 1) as real);
    }
  }

  lemma Distribute(a: real, n: real)
    ensures a * (n + 1.0) == a * n + a
  {
  }

  /** Bounds on every price bound the sum. */
  lemma {:induction false} SumBounds(ps: seq<Product>, lo: real, hi: real)
    requires forall p | p in ps :: lo <= p.price <= hi
    ensures Scaled(lo, |ps|) <= Sum(ps) <= Scaled(hi, |ps|)
  {
    if ps != [] {
      var rest := ps[1..];
      assert forall p | p in rest :: p in ps;
      SumBounds(rest, lo, hi);
      assert ps[0] in ps;
    }
  }

  /** A total between `lo * n` and `hi * n` has its mean between `lo` and
      `hi`. */
  lemma MeanBounds(total: real, n: real, lo: real, hi: real)
    requires n > 0.0 && lo * n <= total <= hi * n
    ensures lo <= total / n <= hi && (total / n) * n == total
  {
    var m := total / n;
    assert m * n == total;
    assert (m - lo) * n == total - lo * n;
    assert (hi - m) * n == hi * n - total;
  }

  /** The cheapest price in a non-empty sequence. */
  function MinPrice(ps: seq<Product>): (m: real)
    requires ps != []
    ensures forall p | p in ps :: m <= p.price
    ensures exists p | p in ps :: p.price == m
  {
    if |ps| == 1 then ps[0].price
    else
      var rest := MinPrice(ps[1..]);
      assert forall p | p in ps :: p == ps[0] || p in ps[1..];
      if ps[0].price <= rest then ps[0].price else rest
  }

  /** The dearest price in a non-empty sequence. */
  function MaxPrice(ps: seq<Product>): (m: real)
    requires ps != []
    ensures forall p | p in ps :: p.price <= m
    ensures exists p | p in ps :: p.price == m
  {
    if |ps| == 1 then ps[0].price
    else
      var rest := MaxPrice(ps[1..]);
      assert forall p | p in ps :: p == ps[0] || p in ps[1..];
      if ps[0].price >= rest then ps[0].price else rest
  }

  /** The mean of a non-empty sequence lies between its cheapest and its
      dearest price. */
  lemma MeanBetweenExtremes(ps: seq<Product>)
    requires ps != []
    ensures MinPrice(ps) <= Mean(ps) <= MaxPrice(ps)
  {
    MeanWithin(ps, MinPrice(ps), MaxPrice(ps));
  }

  /** Bounds on every price bound the mean. */
  lemma MeanWithin(ps: seq<Product>, lo: real, hi: real)
    requires ps != []
    requires forall p | p in ps :: lo <= p.price <= hi
    ensures lo <= Mean(ps) <= hi
  {
    SumBounds(ps, lo, hi);
    MeanFromScaled(Sum(ps), |ps|, lo, hi);
  }

  lemma MeanFromScaled(total: real, k: nat, lo: real, hi: real)
    requires k > 0 && Scaled(lo, k) <= total <= Scaled(hi, k)
    ensures lo <= total / k as real <= hi
  {
    ScaledIsProduct(lo, k);
    ScaledIsProduct(hi, k);
    MeanBounds(total, k as real, lo, hi);
  }

  /** The arithmetic mean of the prices. */
  function Mean(ps: seq<Product>): real
    requires ps != []
  {
    Sum(ps) / |ps| as real
  }

  /** The mean times the count gives the sum back. */
  lemma MeanTimesCount(ps: seq<Product>)
    requires ps != []
    ensures Mean(ps) * |ps| as real == Sum(ps)
  {
    DivTimes(Sum(ps), |ps| as real);
  }

  lemma DivTimes(total: real, n: real)
    requires n > 0.0
    ensures (total / n) * n == total
  {
  }

  /** When every price is `x`, so is the mean. */
  lemma UniformMean(ps: seq<Product>, x: real)
    requires ps != [] && forall p | p in ps :: p.price == x
    ensures Mean(ps) == x
  {
    MeanWithin(ps, x, x);
  }
}

/** `ProductDomainService`: read-only policy predicates over both
    repositories. Prices are exact reals. */
module ProductService {
  import opened Wrappers
  import opened Products
  import opened RepositoryCalls
  import opened PriceStatistics
  import CR = InMemoryCategoryRepository
  import PR = InMemoryProductRepository

  /** An inclusive price band. */
  datatype Band = Band(min: real, max: real)

  /** `PRICE_RANGES`: three listed categories and the `default` band. */
  const PriceRanges: map<string, Band> := map[
    "category_1" := Band(10.0, 1000.0),
    "category_2" := Band(50.0, 2000.0),
    "category_3" := Band(100.0, 5000.0),
    "default" := Band(1.0, 10000.0)]

  const DefaultBand: Band := Band(1.0, 10000.0)

  /** `getPriceRangeForCategory`: the listed band, or the default band for
      any other id. It reads no repository. */
  function PriceRange(categoryId: string): (b: Band)
    ensures categoryId in PriceRanges ==> b == PriceRanges[categoryId]
    ensures categoryId !in PriceRanges ==> b == DefaultBand
    ensures DefaultBand.min <= b.min < b.max <= DefaultBand.max
  {
    if categoryId in PriceRanges then PriceRanges[categoryId] else PriceRanges["default"]
  }

  /** The listed bands, and only the default band elsewhere. */
  lemma PriceRangeTable(categoryId: string)
    ensures PriceRange("category_1") == Band(10.0, 1000.0)
    ensures PriceRange("category_2") == Band(50.0, 2000.0)
    ensures PriceRange("category_3") == Band(100.0, 5000.0)
    ensures categoryId != "category_1" && categoryId != "category_2" && categoryId != "category_3"
      ==> PriceRange(categoryId) == Band(1.0, 10000.0)
  {
  }

  /** `isCategoryActive`: false for an unknown id, else the stored flag;
      equivalently, the id is one of `findActive`. */
  function IsCategoryActive(cats: CR.Repository, categoryId: string): (r: bool)
    requires CR.Valid(cats)
    ensures r <==> exists c | c in CR.FindActive(cats) :: c.id == categoryId
  {
    match CR.FindById(cats, categoryId)
    case None => false
    case Some(c) => c.isActive
  }

  /** Whether some product in `ps` has exactly this name and category. */
  function HasClash(ps: seq<Product>, name: string, categoryId: string): (r: bool)
    ensures r <==> exists p | p in ps :: p.name == name && p.categoryId == categoryId
  {
    if ps == [] then false
    else if ps[0].name == name && ps[0].categoryId == categoryId then true
    else
      assert forall p | p in ps :: p == ps[0] || p in ps[1..];
      HasClash(ps[1..], name, categoryId)
  }

  /** `isProductNameUnique`: no stored product has this exact name in this
      category; the same name elsewhere is fine. */
  function IsProductNameUnique(prods: PR.Repository, name: string, categoryId: string): (r: bool)
    requires PR.Valid(prods)
    ensures r <==> forall p | p in PR.FindAll(prods) :: !(p.name == name && p.categoryId == categoryId)
  {
    !HasClash(PR.FindAll(prods), name, categoryId)
  }

  /** `isPriceWithinAcceptableRange`: false for an unknown category, else
      the inclusive band check. */
  function IsPriceWithinAcceptableRange(cats: CR.Repository, price: real, categoryId: string): (r: bool)
    requires CR.Valid(cats)
    ensures r <==> (exists c | c in CR.FindAll(cats) :: c.id == categoryId)
                   && PriceRange(categoryId).min <= price <= PriceRange(categoryId).max
    ensures r ==> DefaultBand.min <= price <= DefaultBand.max
  {
    match CR.FindById(cats, categoryId)
    case None => false
    case Some(_) =>
      var band := PriceRange(categoryId);
      price >= band.min && price <= band.max
  }

  /** A verdict together with the port calls made to reach it. */
  datatype Check = Check(ok: bool, calls: seq<Call>)

  /** `canCreateProduct`: active category, then name uniqueness, then the
      band, stopping at the first failure. */
  function CanCreateProduct(cats: CR.Repository, prods: PR.Repository, name: string,
                            price: real, categoryId: string): (r: Check)
    requires CR.Valid(cats) && PR.Valid(prods)
    ensures r.ok <==>
      && (exists c | c in CR.FindActive(cats) :: c.id == categoryId)
      && (forall p | p in PR.FindAll(prods) :: !(p.name == name && p.categoryId == categoryId))
      && PriceRange(categoryId).min <= price <= PriceRange(categoryId).max
    ensures !IsCategoryActive(cats, categoryId) ==> r.calls == [CategoryFindById(categoryId)]
    ensures IsCategoryActive(cats, categoryId) && !IsProductNameUnique(prods, name, categoryId) ==>
      r.calls == [CategoryFindById(categoryId), ProductFindAll]
    ensures IsCategoryActive(cats, categoryId) && IsProductNameUnique(prods, name, categoryId) ==>
      r.calls == [CategoryFindById(categoryId), ProductFindAll, CategoryFindById(categoryId)]
  {
    if !IsCategoryActive(cats, categoryId) then
      Check(false, [CategoryFindById(categoryId)])
    else if !IsProductNameUnique(prods, name, categoryId) then
      Check(false, [CategoryFindById(categoryId), ProductFindAll])
    else
      assert CR.FindById(cats, categoryId).Some? by {
        var c :| c in CR.FindActive(cats) && c.id == categoryId;
      }
      Check(IsPriceWithinAcceptableRange(cats, price, categoryId),
            [CategoryFindById(categoryId), ProductFindAll, CategoryFindById(categoryId)])
  }

  /** Whatever `canCreateProduct` lets through is also accepted by the
      `Product` constructor's price rule, and lies in the default band. */
  lemma CreatableHasSanePrice(cats: CR.Repository, prods: PR.Repository, name: string,
                              price: real, categoryId: string)
    requires CR.Valid(cats) && PR.Valid(prods)
    requires CanCreateProduct(cats, prods, name, price, categoryId).ok
    ensures ValidatePrice(price) == Pass
    ensures 1.0 <= price <= 10000.0
  {
  }

  /** Every stored product has a non-negative price. */
  lemma StoredPricesNonNegative(prods: PR.Repository, p: Product)
    requires PR.Valid(prods) && p in PR.FindAll(prods)
    ensures p.price >= 0.0
  {
    assert PR.FindById(prods, p.id) == Some(p);
    assert p == prods.table.entries[p.id];
  }

  lemma CategoryPricesNonNegative(prods: PR.Repository, categoryId: string)
    requires PR.Valid(prods)
    ensures forall p | p in PR.FindByCategoryId(prods, categoryId) :: p.price >= 0.0
  {
    forall p | p in PR.FindByCategoryId(prods, categoryId) ensures p.price >= 0.0 {
      StoredPricesNonNegative(prods, p);
    }
  }

  /** `getAveragePriceForCategory`: none when the category has no products,
      otherwise the mean price, which lies between the cheapest and the
      dearest of them and is never negative. */
  function AveragePrice(prods: PR.Repository, categoryId: string): (r: Option<real>)
    requires PR.Valid(prods)
    ensures r.None? <==> forall p | p in PR.FindAll(prods) :: p.categoryId != categoryId
    ensures r.Some? ==>
      var ps := PR.FindByCategoryId(prods, categoryId);
      && ps != [] && r.value == Mean(ps)
      && MinPrice(ps) <= r.value <= MaxPrice(ps)
      && 0.0 <= r.value
  {
    var ps := PR.FindByCategoryId(prods, categoryId);
    if ps == [] then None
    else
      CategoryPricesNonNegative(prods, categoryId);
      MeanBetweenExtremes(ps);
      Some(Mean(ps))
  }

  /** When every product of the category costs `x`, the average is `x`. */
  lemma UniformAverage(prods: PR.Repository, categoryId: string, x: real)
    requires PR.Valid(prods)
    requires exists p | p in PR.FindAll(prods) :: p.categoryId == categoryId
    requires forall p | p in PR.FindAll(prods) && p.categoryId == categoryId :: p.price == x
    ensures AveragePrice(prods, categoryId) == Some(x)
  {
    var ps := PR.FindByCategoryId(prods, categoryId);
    var p :| p in PR.FindAll(prods) && p.categoryId == categoryId;
    assert p in ps;
    UniformMean(ps, x);
  }

  /** The 20% window around an average, written as the source computes it:
      `average - average * 0.2` to `average + average * 0.2`, inclusive. */
  function WithinTolerance(price: real, average: real): (r: bool)
    ensures r <==> 8.0 * average <= 10.0 * price <= 12.0 * average
  {
    var tolerance := average * 0.2;
    price >= average - tolerance && price <= average + tolerance
  }

  /** Against an average of 100, 120 and 80 are still competitive while
      120.01 and 79.99 are not. */
  lemma ToleranceEdges()
    ensures WithinTolerance(120.0, 100.0) && WithinTolerance(80.0, 100.0)
    ensures !WithinTolerance(120.01, 100.0) && !WithinTolerance(79.99, 100.0)
    ensures WithinTolerance(119.99, 100.0)
  {
  }

  /** `isPriceCompetitive`: any price is competitive in a category with no
      products; otherwise the price must lie within 20% of the average. */
  function IsPriceCompetitive(prods: PR.Repository, price: real, categoryId: string): (r: bool)
    requires PR.Valid(prods)
    ensures (forall p | p in PR.FindAll(prods) :: p.categoryId != categoryId) ==> r
    ensures AveragePrice(prods, categoryId).Some? ==>
      (r <==> 8.0 * AveragePrice(prods, categoryId).value <= 10.0 * price
                <= 12.0 * AveragePrice(prods, categoryId).value)
  {
    CompetitiveAgainst(price, AveragePrice(prods, categoryId))
  }

  /** The verdict against an optional average: no average accepts any price. */
  function CompetitiveAgainst(price: real, average: Option<real>): (r: bool)
    ensures average.None? ==> r
    ensures average.Some? ==> (r <==> 8.0 * average.value <= 10.0 * price <= 12.0 * average.value)
  {
    average.None? || WithinTolerance(price, average.value)
  }

  /** The average price itself is always competitive, and so is the price of
      a category whose products all cost the same. */
  lemma AverageIsCompetitive(prods: PR.Repository, categoryId: string)
    requires PR.Valid(prods)
    requires AveragePrice(prods, categoryId).Some?
    ensures IsPriceCompetitive(prods, AveragePrice(prods, categoryId).value, categoryId)
  {
  }
}
