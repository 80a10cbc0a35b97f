/** The `Category` entity. The PHP class is a mutable record; here each
    operation returns the updated record. The clock is the `now` argument and
    the id `uniqid` would generate is the `freshId` argument. The entity does
    not hold a `CategoryName` but repeats that value object's checks, with
    the same messages in the same order; the model states that agreement. */
module Categories {
  import opened Wrappers
  import opened PhpStrings
  import opened Errors
  import opened NameRules
  import CategoryNames

  datatype Category = Category(
    id: string,
    name: string,
    description: string,
    isActive: bool,
    createdAt: nat,
    updatedAt: nat)

  /** What every category the constructor and the updates produce satisfies. */
  ghost predicate Valid(c: Category) {
    IsValidName(c.name) && c.createdAt <= c.updatedAt
  }

  /** `validateName`: the entity's own copy of the `CategoryName` rule. */
  function ValidateName(name: string): (r: Result<string, Error>)
    ensures r.Success? <==> CategoryNames.Create(name).Success?
    ensures r.Success? ==> r.value == CategoryNames.Create(name).value.value
    ensures r.Failure? ==> r.error == CategoryNames.Create(name).error
  {
    CheckBoundedName(name, CategoryNameEmpty, CategoryNameTooLong)
  }

  /** The constructor. A supplied id is kept as it is (even an empty one);
      only a missing id is replaced by a generated one. */
  function Create(name: string, description: string, id: Option<string>, freshId: string, now: nat)
    : (r: Result<Category, Error>)
    ensures r.Success? <==> CategoryNames.Create(name).Success?
    ensures r.Failure? ==> r.error == CategoryNames.Create(name).error
    ensures r.Success? ==>
      && r.value.name == Trim(name)
      && r.value.description == description
      && r.value.isActive
      && r.value.createdAt == now && r.value.updatedAt == now
      && r.value.id == (if id.Some? then id.value else freshId)
      && Valid(r.value)
  {
    var trimmed :- ValidateName(name);
    Success(Category(id.GetOr(freshId), trimmed, description, true, now, now))
  }

  /** On failure the caller keeps the category it had, which is the PHP
      behaviour of throwing before any field is assigned. */
  function UpdateName(c: Category, name: string, now: nat): (r: Result<Category, Error>)
    ensures r.Success? <==> CategoryNames.Create(name).Success?
    ensures r.Failure? ==> r.error == CategoryNames.Create(name).error
    ensures r.Success? ==> r.value == c.(name := Trim(name), updatedAt := now)
  {
    var trimmed :- ValidateName(name);
    Success(c.(name := trimmed, updatedAt := now))
  }

  /** `updateDescription`: accepts any text; only the description and the
      update time change, and the category stays valid. */
  function UpdateDescription(c: Category, description: string, now: nat): (r: Category)
    ensures r.description == description && r.updatedAt == now
    ensures r.id == c.id && r.name == c.name && r.isActive == c.isActive && r.createdAt == c.createdAt
    ensures Valid(c) && c.updatedAt <= now ==> Valid(r)
  {
    c.(description := description, updatedAt := now)
  }

  /** `activate`: sets the flag whatever it was; nothing else but the update
      time changes. */
  function Activate(c: Category, now: nat): (r: Category)
    ensures r.isActive && r.updatedAt == now
    ensures r.id == c.id && r.name == c.name && r.description == c.description && r.createdAt == c.createdAt
    ensures Valid(c) && c.updatedAt <= now ==> Valid(r)
  {
    c.(isActive := true, updatedAt := now)
  }

  /** `deactivate`: clears the flag whatever it was; nothing else but the
      update time changes. */
  function Deactivate(c: Category, now: nat): (r: Category)
    ensures !r.isActive && r.updatedAt == now
    ensures r.id == c.id && r.name == c.name && r.description == c.description && r.createdAt == c.createdAt
    ensures Valid(c) && c.updatedAt <= now ==> Valid(r)
  {
    c.(isActive := false, updatedAt := now)
  }

  /** Every operation leaves `id` and `createdAt` alone and, with a clock
      that does not run backwards, keeps the category valid. */
  lemma OperationsPreserveValid(c: Category, name: string, description: string, now: nat)
    requires Valid(c) && c.updatedAt <= now
    ensures UpdateName(c, name, now).Success? ==>
      var u := UpdateName(c, name, now).value;
      Valid(u) && u.id == c.id && u.createdAt == c.createdAt
        && u.description == c.description && u.isActive == c.isActive
    ensures var u := UpdateDescription(c, description, now);
      Valid(u) && u.id == c.id && u.createdAt == c.createdAt
        && u.name == c.name && u.isActive == c.isActive && u.description == description
    ensures var u := Activate(c, now);
      Valid(u) && u.id == c.id && u.createdAt == c.createdAt && u.isActive
        && u.name == c.name && u.description == c.description
    ensures var u := Deactivate(c, now);
      Valid(u) && u.id == c.id && u.createdAt == c.createdAt && !u.isActive
        && u.name == c.name && u.description == c.description
  {
    var r := UpdateName(c, name, now);
    if r.Success? {
      var n := CategoryNames.Create(name);
      assert IsValidName(n.value.value);
      assert r.value.name == n.value.value;
    }
  }

  /** `activate` and `deactivate` are idempotent, yet still move `updatedAt`. */
  lemma ActivationIdempotent(c: Category, t1: nat, t2: nat)
    ensures Activate(Activate(c, t1), t2) == Activate(c, t2)
    ensures Deactivate(Deactivate(c, t1), t2) == Deactivate(c, t2)
    ensures c.isActive ==> Activate(c, t2) == c.(updatedAt := t2)
    ensures !c.isActive ==> Deactivate(c, t2) == c.(updatedAt := t2)
  {
  }
}

/** The `Product` entity. It does not use the value objects: the name only
    has to be non-blank (after `trim`, in the `empty()` sense), it is stored
    untrimmed and has no length limit; the price must not be negative. The
    name is checked before the price. */
module Products {
  import opened Wrappers
  import opened PhpStrings
  import opened Errors
  import ProductNames

  datatype Product = Product(
    id: string,
    name: string,
    price: real,
    categoryId: string,
    description: string,
    createdAt: nat,
    updatedAt: nat)

  /** What every product the constructor and the updates produce satisfies. */
  ghost predicate Valid(p: Product) {
    !IsPhpEmpty(Trim(p.name)) && p.price >= 0.0 && p.createdAt <= p.updatedAt
  }

  function ValidateName(name: string): (r: Outcome<Error>)
    ensures r.Pass? <==> !IsPhpEmpty(Trim(name))
    ensures r.Fail? ==> r.error == ProductNameEmpty
  {
    if IsPhpEmpty(Trim(name)) then Fail(ProductNameEmpty) else Pass
  }

  function ValidatePrice(price: real): (r: Outcome<Error>)
    ensures r.Pass? <==> price >= 0.0
    ensures r.Fail? ==> r.error == ProductPriceNegative
  {
    if price < 0.0 then Fail(ProductPriceNegative) else Pass
  }

  /** The constructor. A blank name wins over a negative price. A supplied
      id is kept as it is (even ""); only a missing id is generated. */
  function Create(name: string, price: real, categoryId: string, description: string,
                  id: Option<string>, freshId: string, now: nat): (r: Result<Product, Error>)
    ensures IsPhpEmpty(Trim(name)) ==> r == Failure(ProductNameEmpty)
    ensures !IsPhpEmpty(Trim(name)) && price < 0.0 ==> r == Failure(ProductPriceNegative)
    ensures r.Success? <==> !IsPhpEmpty(Trim(name)) && price >= 0.0
    ensures r.Success? ==>
      && r.value.name == name
      && r.value.price == price
      && r.value.categoryId == categoryId
      && r.value.description == description
      && r.value.createdAt == now && r.value.updatedAt == now
      && r.value.id == (if id.Some? then id.value else freshId)
      && Valid(r.value)
  {
    var nameCheck := ValidateName(name);
    var priceCheck := ValidatePrice(price);
    if nameCheck.Fail? then Failure(nameCheck.error)
    else if priceCheck.Fail? then Failure(priceCheck.error)
    else Success(Product(id.GetOr(freshId), name, price, categoryId, description, now, now))
  }

  /** On failure the caller keeps the product it had. */
  function UpdateName(p: Product, name: string, now: nat): (r: Result<Product, Error>)
    ensures r.Success? <==> !IsPhpEmpty(Trim(name))
    ensures r.Failure? ==> r.error == ProductNameEmpty
    ensures r.Success? ==> r.value == p.(name := name, updatedAt := now)
  {
    var nameCheck := ValidateName(name);
    if nameCheck.Fail? then Failure(nameCheck.error)
    else Success(p.(name := name, updatedAt := now))
  }

  function UpdatePrice(p: Product, price: real, now: nat): (r: Result<Product, Error>)
    ensures r.Success? <==> price >= 0.0
    ensures r.Failure? ==> r.error == ProductPriceNegative
    ensures r.Success? ==> r.value == p.(price := price, updatedAt := now)
  {
    var priceCheck := ValidatePrice(price);
    if priceCheck.Fail? then Failure(priceCheck.error)
    else Success(p.(price := price, updatedAt := now))
  }

  /** `updateCategory` is called by the update use case but has no body in
      the entity; it is modelled as an unconditional setter. */
  function UpdateCategory(p: Product, categoryId: string, now: nat): (r: Product)
    ensures r.categoryId == categoryId && r.updatedAt == now
    ensures r.id == p.id && r.name == p.name && r.price == p.price
      && r.description == p.description && r.createdAt == p.createdAt
    ensures Valid(p) && p.updatedAt <= now ==> Valid(r)
  {
    p.(categoryId := categoryId, updatedAt := now)
  }

  /** `updateDescription`: likewise called but not defined; an
      unconditional setter. */
  function UpdateDescription(p: Product, description: string, now: nat): (r: Product)
    ensures r.description == description && r.updatedAt == now
    ensures r.id == p.id && r.name == p.name && r.price == p.price
      && r.categoryId == p.categoryId && r.createdAt == p.createdAt
    ensures Valid(p) && p.updatedAt <= now ==> Valid(r)
  {
    p.(description := description, updatedAt := now)
  }

  /** No update touches `id` or `createdAt`, each changes only its own field
      and `updatedAt`, and with a clock that does not run backwards each keeps
      the product valid. */
  lemma OperationsPreserveValid(p: Product, name: string, price: real, categoryId: string,
                                description: string, now: nat)
    requires Valid(p) && p.updatedAt <= now
    ensures UpdateName(p, name, now).Success? ==>
      var u := UpdateName(p, name, now).value;
      Valid(u) && u.id == p.id && u.createdAt == p.createdAt && u.price == p.price
        && u.categoryId == p.categoryId && u.description == p.description
    ensures UpdatePrice(p, price, now).Success? ==>
      var u := UpdatePrice(p, price, now).value;
      Valid(u) && u.id == p.id && u.createdAt == p.createdAt && u.name == p.name
        && u.categoryId == p.categoryId && u.description == p.description
    ensures var u := UpdateCategory(p, categoryId, now);
      Valid(u) && u.id == p.id && u.createdAt == p.createdAt && u.name == p.name
        && u.price == p.price && u.description == p.description
    ensures var u := UpdateDescription(p, description, now);
      Valid(u) && u.id == p.id && u.createdAt == p.createdAt && u.name == p.name
        && u.price == p.price && u.categoryId == p.categoryId
  {
  }

  /** The entity is laxer than the `ProductName` value object: a name of 256
      ASCII letters is a valid product name for the entity but not for the
      value object. */
  lemma EntityHasNoLengthLimit(name: string, price: real, categoryId: string, description: string,
                               id: Option<string>, freshId: string, now: nat)
    requires |name| == 256 && forall i | 0 <= i < |name| :: 'a' <= name[i] <= 'z'
    requires price >= 0.0
    ensures Create(name, price, categoryId, description, id, freshId, now).Success?
    ensures ProductNames.Create(name) == Failure(ProductNameTooLong)
  {
    assert name[0..0 + |name|] == name && name[..0] == [] && name[0 + |name|..] == [];
    TrimUnique(name, name, 0);
    AsciiStrLen(name);
  }
}
