/** The in-memory category repository: categories keyed by id in an
    insertion-ordered PHP array. Saving is an upsert under the category's
    own id. */
module InMemoryCategoryRepository {
  import opened Wrappers
  import opened Sequences
  import opened Tables
  import opened Categories

  datatype Repository = Repository(table: Table<Category>)

  /** Every category sits under its own id. */
  ghost predicate Valid(r: Repository) {
    && Tables.Valid(r.table)
    && forall k | k in r.table.entries :: r.table.entries[k].id == k
  }

  function Empty(): (r: Repository)
    ensures Valid(r) && FindAll(r) == []
  {
    Repository(Tables.Empty())
  }

  /** `findById`: the category stored under `id`, or none. */
  function FindById(r: Repository, id: string): (c: Option<Category>)
    ensures c.Some? <==> id in r.table.entries
    ensures c.Some? ==> c.value == r.table.entries[id]
    ensures Valid(r) && c.Some? ==> c.value.id == id
  {
    Get(r.table, id)
  }

  /** `findAll`: one entry per stored id, in first-insertion order. */
  function FindAll(r: Repository): (cs: seq<Category>)
    requires Valid(r)
    ensures |cs| == |r.table.entries|
    ensures forall c | c in cs :: FindById(r, c.id) == Some(c)
    ensures forall id | FindById(r, id).Some? :: FindById(r, id).value in cs
    ensures forall i, j | 0 <= i < j < |cs| :: cs[i].id != cs[j].id
  {
    SizeIsKeyCount(r.table);
    forall id | FindById(r, id).Some? ensures FindById(r, id).value in Values(r.table) {
      ValuesComplete(r.table, id);
    }
    Values(r.table)
  }

  /** `save`: upserts under the category's id and returns its argument. A
      new id adds one entry; a known id replaces the entry in place. */
  function Save(r: Repository, c: Category): (res: (Repository, Category))
    requires Valid(r)
    ensures Valid(res.0)
    ensures res.1 == c
    ensures FindById(res.0, c.id) == Some(c)
    ensures forall id | id != c.id :: FindById(res.0, id) == FindById(r, id)
    ensures |FindAll(res.0)| == |FindAll(r)| + (if FindById(r, c.id).Some? then 0 else 1)
    ensures FindById(r, c.id).None? ==> FindAll(res.0) == FindAll(r) + [c]
    ensures FindById(r, c.id).Some? ==>
      && |FindAll(res.0)| == |FindAll(r)|
      && forall i | 0 <= i < |FindAll(r)| ::
           FindAll(res.0)[i] == if FindAll(r)[i].id == c.id then c else FindAll(r)[i]
  {
    var t := Put(r.table, c.id, c);
    assert t.entries.Keys == r.table.entries.Keys + {c.id};
    PutKeepsOrder(r, c);
    (Repository(t), c)
  }

  /** How `findAll` changes when a category is put under its id: appended
      for a new id, replaced where it stands for a stored one. */
  lemma PutKeepsOrder(r: Repository, c: Category)
    requires Valid(r)
    ensures var r1 := Repository(Put(r.table, c.id, c));
      && Valid(r1)
      && (c.id !in r.table.entries ==> FindAll(r1) == FindAll(r) + [c])
      && (c.id in r.table.entries ==>
           && |FindAll(r1)| == |FindAll(r)|
           && forall i | 0 <= i < |FindAll(r)| ::
                FindAll(r1)[i] == if FindAll(r)[i].id == c.id then c else FindAll(r)[i])
  {
    PutValues(r.table, c.id, c, Key);
  }

  /** `delete`: false and no change for an unknown id; otherwise removes
      that id only and answers true. */
  function Delete(r: Repository, id: string): (res: (Repository, bool))
    requires Valid(r)
    ensures Valid(res.0)
    ensures res.1 <==> FindById(r, id).Some?
    ensures !res.1 ==> res.0 == r
    ensures FindById(res.0, id) == None
    ensures forall other | other != id :: FindById(res.0, other) == FindById(r, other)
    ensures res.1 ==> |FindAll(res.0)| == |FindAll(r)| - 1
    ensures res.1 ==>
      exists i | 0 <= i < |FindAll(r)| && FindAll(r)[i].id == id ::
        FindAll(res.0) == FindAll(r)[..i] + FindAll(r)[i + 1..]
  {
    if id !in r.table.entries then (r, false)
    else
      var t := Remove(r.table, id);
      assert t.entries.Keys == r.table.entries.Keys - {id};
      var i :| 0 <= i < |r.table.order| && r.table.order[i] == id;
      RemoveValuesAt(r.table, id, i);
      assert FindAll(r)[i].id == id;
      (Repository(t), true)
  }

  function IsActive(c: Category): bool {
    c.isActive
  }

  function IsInactive(c: Category): bool {
    !c.isActive
  }

  function Key(c: Category): string {
    c.id
  }

  /** `findActive`: the active categories of `findAll`, in the same order,
      each once. */
  function FindActive(r: Repository): (cs: seq<Category>)
    requires Valid(r)
    ensures |cs| <= |FindAll(r)|
    ensures forall c | c in cs :: c.isActive && c in FindAll(r)
    ensures forall c | c in FindAll(r) && c.isActive :: c in cs
    ensures forall i, j | 0 <= i < j < |cs| :: cs[i].id != cs[j].id
  {
    FilterKeepsDistinct(FindAll(r), IsActive, Key);
    Filter(FindAll(r), IsActive)
  }

  /** Saving a category under a new id puts it, if active, after the
      categories `findActive` already listed. */
  lemma ActiveAfterNewSave(r: Repository, c: Category)
    requires Valid(r) && FindById(r, c.id).None?
    ensures FindActive(Save(r, c).0) == FindActive(r) + (if c.isActive then [c] else [])
  {
    FilterAppendOne(FindAll(r), c, IsActive);
  }

  /** The position of the first category named `name`, the `foreach` that
      returns at the first match. */
  function FirstNamed(cs: seq<Category>, name: string): (r: Option<nat>)
    ensures r.Some? ==> r.value < |cs| && cs[r.value].name == name
    ensures r.Some? ==> forall j | 0 <= j < r.value :: cs[j].name != name
    ensures r.None? <==> forall c | c in cs :: c.name != name
  {
    if cs == [] then None
    else if cs[0].name == name then Some(0)
    else
      assert forall c | c in cs :: c == cs[0] || c in cs[1..];
      match FirstNamed(cs[1..], name)
      case None => None
      case Some(i) => Some(i + 1)
  }

  /** `findByName`: the first category, in insertion order, whose name is
      exactly `name`; none when there is no such category. */
  function FindByName(r: Repository, name: string): (res: Option<Category>)
    requires Valid(r)
    ensures res.None? <==> forall c | c in FindAll(r) :: c.name != name
    ensures res.Some? ==>
      exists i | 0 <= i < |FindAll(r)| ::
        && FindAll(r)[i] == res.value
        && res.value.name == name
        && forall j | 0 <= j < i :: FindAll(r)[j].name != name
  {
    var all := FindAll(r);
    match FirstNamed(all, name)
    case None => None
    case Some(i) => Some(all[i])
  }
}

/** The in-memory product repository. Saving a product whose id is truthy
    (anything but "" and "0") is an upsert under that id; saving one with a
    falsy id builds a new product with id "product_N" from a counter that
    starts at 1, stores that copy and returns it. */
module InMemoryProductRepository {
  import opened Wrappers
  import opened PhpStrings
  import opened Sequences
  import opened Tables
  import opened Products

  datatype Repository = Repository(table: Table<Product>, nextId: nat)

  /** PHP truthiness of a string: everything except "" and "0". */
  predicate IsTruthy(id: string) {
    !IsPhpEmpty(id)
  }

  /** `'product_' . $n`. */
  function GeneratedId(n: nat): (id: string)
    ensures IsTruthy(id)
    ensures |id| > 8 && id[..8] == "product_" && id[8..] == Decimal(n)
  {
    "product_" + Decimal(n)
  }

  /** What the store relies on for an entry: it sits under its own truthy
      id, its price is not negative and its timestamps are ordered. */
  ghost predicate WellStored(k: string, p: Product) {
    p.id == k && IsTruthy(k) && p.price >= 0.0 && p.createdAt <= p.updatedAt
  }

  /** Every entry is well stored; the counter never drops below its
      starting value. */
  ghost predicate Valid(r: Repository) {
    && Tables.Valid(r.table)
    && r.nextId >= 1
    && forall k | k in r.table.entries :: WellStored(k, r.table.entries[k])
  }

  /** Every stored product is a valid `Product` (its name is not blank). */
  ghost predicate AllProductsValid(r: Repository) {
    forall k | k in r.table.entries :: Products.Valid(r.table.entries[k])
  }

  function Empty(): (r: Repository)
    ensures Valid(r) && AllProductsValid(r) && FindAll(r) == [] && r.nextId == 1
  {
    Repository(Tables.Empty(), 1)
  }

  function FindById(r: Repository, id: string): (p: Option<Product>)
    ensures p.Some? <==> id in r.table.entries
    ensures p.Some? ==> p.value == r.table.entries[id]
    ensures Valid(r) && p.Some? ==> p.value.id == id && IsTruthy(id)
  {
    Get(r.table, id)
  }

  /** `findAll`: one entry per stored id, in first-insertion order. */
  function FindAll(r: Repository): (ps: seq<Product>)
    requires Valid(r)
    ensures |ps| == |r.table.entries|
    ensures forall p | p in ps :: FindById(r, p.id) == Some(p)
    ensures forall id | FindById(r, id).Some? :: FindById(r, id).value in ps
    ensures forall i, j | 0 <= i < j < |ps| :: ps[i].id != ps[j].id
  {
    SizeIsKeyCount(r.table);
    forall id | FindById(r, id).Some? ensures FindById(r, id).value in Values(r.table) {
      ValuesComplete(r.table, id);
    }
    Values(r.table)
  }

  /** `new Product(name, price, categoryId, description, id)`: the
      constructor applied to the fields of a valid product keeps them and
      stamps both timestamps with `now`. */
  function Renumbered(p: Product, id: string, now: nat): (q: Product)
    requires Products.Valid(p)
    ensures q == p.(id := id, createdAt := now, updatedAt := now)
    ensures Products.Valid(q)
  {
    Products.Create(p.name, p.price, p.categoryId, p.description, Some(id), id, now).value
  }

  /** `$this->products[$p->getId()] = $p` for a product with a truthy id,
      with the counter set to `nextId`. */
  function Store(r: Repository, p: Product, nextId: nat): (r1: Repository)
    requires Valid(r) && WellStored(p.id, p) && nextId >= 1
    ensures Valid(r1) && r1.nextId == nextId
    ensures r1.table.entries == r.table.entries[p.id := p]
    ensures FindById(r1, p.id) == Some(p)
    ensures forall id | id != p.id :: FindById(r1, id) == FindById(r, id)
    ensures |FindAll(r1)| == |FindAll(r)| + (if FindById(r, p.id).Some? then 0 else 1)
    ensures FindById(r, p.id).None? ==> FindAll(r1) == FindAll(r) + [p]
    ensures FindById(r, p.id).Some? ==>
      && |FindAll(r1)| == |FindAll(r)|
      && forall i | 0 <= i < |FindAll(r)| ::
           FindAll(r1)[i] == if FindAll(r)[i].id == p.id then p else FindAll(r)[i]
  {
    var t := Put(r.table, p.id, p);
    assert t.entries == r.table.entries[p.id := p];
    assert t.entries.Keys == r.table.entries.Keys + {p.id};
    forall k | k in t.entries
      ensures WellStored(k, t.entries[k])
    {
      if k != p.id {
        assert t.entries[k] == r.table.entries[k];
      }
    }
    PutKeepsOrder(r, p, nextId);
    Repository(t, nextId)
  }

  /** How `findAll` changes when a product is put under its id: appended for
      a new id, replaced where it stands for a stored one. */
  lemma PutKeepsOrder(r: Repository, p: Product, nextId: nat)
    requires Valid(r) && Valid(Repository(Put(r.table, p.id, p), nextId))
    ensures var r1 := Repository(Put(r.table, p.id, p), nextId);
      && (p.id !in r.table.entries ==> FindAll(r1) == FindAll(r) + [p])
      && (p.id in r.table.entries ==>
           && |FindAll(r1)| == |FindAll(r)|
           && forall i | 0 <= i < |FindAll(r)| ::
                FindAll(r1)[i] == if FindAll(r)[i].id == p.id then p else FindAll(r)[i])
  {
    PutValues(r.table, p.id, p, Key);
  }

  /** `save`. The returned product is what was stored. With a truthy id it is
      the argument itself; otherwise it is a copy built by the `Product`
      constructor (so its timestamps are `now`) under the next counter id,
      and the counter moves on. */
  function Save(r: Repository, p: Product, now: nat): (res: (Repository, Product))
    requires Valid(r) && Products.Valid(p)
    ensures Valid(res.0)
    ensures res.0.table.entries == r.table.entries[res.1.id := res.1]
    ensures FindById(res.0, res.1.id) == Some(res.1)
    ensures forall id | id != res.1.id :: FindById(res.0, id) == FindById(r, id)
    ensures IsTruthy(p.id) ==> res.1 == p && res.0.nextId == r.nextId
    ensures !IsTruthy(p.id) ==>
      && res.1 == p.(id := GeneratedId(r.nextId), createdAt := now, updatedAt := now)
      && res.0.nextId == r.nextId + 1
    ensures |FindAll(res.0)| == |FindAll(r)| + (if FindById(r, res.1.id).Some? then 0 else 1)
    ensures FindById(r, res.1.id).None? ==> FindAll(res.0) == FindAll(r) + [res.1]
    ensures FindById(r, res.1.id).Some? ==>
      && |FindAll(res.0)| == |FindAll(r)|
      && forall i | 0 <= i < |FindAll(r)| ::
           FindAll(res.0)[i] == if FindAll(r)[i].id == res.1.id then res.1 else FindAll(r)[i]
  {
    if IsTruthy(p.id) then (Store(r, p, r.nextId), p)
    else
      var copy := Renumbered(p, GeneratedId(r.nextId), now);
      (Store(r, copy, r.nextId + 1), copy)
  }

  /** `unset($this->products[$id])`. */
  function Drop(r: Repository, id: string): (r1: Repository)
    requires Valid(r) && id in r.table.entries
    ensures Valid(r1) && r1.table.entries == r.table.entries - {id} && r1.nextId == r.nextId
    ensures exists i | 0 <= i < |FindAll(r)| && FindAll(r)[i].id == id ::
      FindAll(r1) == FindAll(r)[..i] + FindAll(r)[i + 1..]
  {
    var t := Remove(r.table, id);
    assert forall k | k in t.entries :: k in r.table.entries && t.entries[k] == r.table.entries[k];
    var i :| 0 <= i < |r.table.order| && r.table.order[i] == id;
    RemoveValuesAt(r.table, id, i);
    assert FindAll(r)[i].id == id;
    Repository(t, r.nextId)
  }

  /** `delete`: false and no change for an unknown id; otherwise removes
      that id only and answers true. */
  function Delete(r: Repository, id: string): (res: (Repository, bool))
    requires Valid(r)
    ensures Valid(res.0)
    ensures res.1 <==> FindById(r, id).Some?
    ensures !res.1 ==> res.0 == r
    ensures FindById(res.0, id) == None
    ensures forall other | other != id :: FindById(res.0, other) == FindById(r, other)
    ensures res.0.table.entries == r.table.entries - {id} && res.0.nextId == r.nextId
    ensures res.1 ==>
      exists i | 0 <= i < |FindAll(r)| && FindAll(r)[i].id == id ::
        FindAll(res.0) == FindAll(r)[..i] + FindAll(r)[i + 1..]
  {
    if id !in r.table.entries then (r, false)
    else
      (Drop(r, id), true)
  }

  function Key(p: Product): string {
    p.id
  }

  /** The test `findByCategoryId` filters with. */
  function InCategory(categoryId: string): Product -> bool {
    (p: Product) => p.categoryId == categoryId
  }

  /** `findByCategoryId`: exactly the stored products of that category, in
      insertion order, each once. */
  function FindByCategoryId(r: Repository, categoryId: string): (ps: seq<Product>)
    requires Valid(r)
    ensures |ps| <= |FindAll(r)|
    ensures forall p | p in ps :: p.categoryId == categoryId && p in FindAll(r)
    ensures forall p | p in FindAll(r) && p.categoryId == categoryId :: p in ps
    ensures forall i, j | 0 <= i < j < |ps| :: ps[i].id != ps[j].id
  {
    FilterKeepsDistinct(FindAll(r), InCategory(categoryId), Key);
    Filter(FindAll(r), InCategory(categoryId))
  }

  /** A product saved under a new id comes last in its category's list. */
  lemma CategoryListAfterNewSave(r: Repository, p: Product, now: nat, categoryId: string)
    requires Valid(r) && Products.Valid(p)
    requires FindById(r, Save(r, p, now).1.id).None?
    ensures var res := Save(r, p, now);
      FindByCategoryId(res.0, categoryId) ==
        FindByCategoryId(r, categoryId) + (if res.1.categoryId == categoryId then [res.1] else [])
  {
    var res := Save(r, p, now);
    var all := FindAll(r);
    assert FindAll(res.0) == all + [res.1];
    FilterAppendOne(all, res.1, InCategory(categoryId));
  }

  /** Saving a valid product keeps every stored product valid. */
  lemma SaveKeepsProductsValid(r: Repository, p: Product, now: nat)
    requires Valid(r) && AllProductsValid(r) && Products.Valid(p)
    ensures AllProductsValid(Save(r, p, now).0)
  {
    var res := Save(r, p, now);
    var entries := res.0.table.entries;
    assert entries == r.table.entries[res.1.id := res.1];
    forall k | k in entries ensures Products.Valid(entries[k]) {
      if k != res.1.id {
        assert entries[k] == r.table.entries[k];
      }
    }
  }

  /** Deleting keeps every remaining product valid. */
  lemma DeleteKeepsProductsValid(r: Repository, id: string)
    requires Valid(r) && AllProductsValid(r)
    ensures AllProductsValid(Delete(r, id).0)
  {
    var entries := Delete(r, id).0.table.entries;
    assert entries == r.table.entries - {id};
    forall k | k in entries ensures Products.Valid(entries[k]) {
      assert entries[k] == r.table.entries[k];
    }
  }

  /** Counter ids never repeat. */
  lemma GeneratedIdsDistinct(m: nat, n: nat)
    requires m != n
    ensures GeneratedId(m) != GeneratedId(n)
  {
    DecimalInjective(m, n);
    assert GeneratedId(m)[8..] == Decimal(m);
    assert GeneratedId(n)[8..] == Decimal(n);
  }

  /** Two products saved without a usable id get different ids, and both are
      stored. */
  lemma SuccessiveGeneratedIdsDiffer(r: Repository, p: Product, q: Product, t1: nat, t2: nat)
    requires Valid(r) && Products.Valid(p) && Products.Valid(q)
    requires !IsTruthy(p.id) && !IsTruthy(q.id)
    ensures var (r1, p1) := Save(r, p, t1);
      var (r2, q1) := Save(r1, q, t2);
      p1.id != q1.id && FindById(r2, p1.id) == Some(p1) && FindById(r2, q1.id) == Some(q1)
  {
    var (r1, p1) := Save(r, p, t1);
    GeneratedIdsDistinct(r.nextId, r1.nextId);
  }

  /** The counter does not look at what is stored: when a product was saved
      earlier under the id the counter is about to produce, saving a product
      without an id replaces it instead of adding one. */
  lemma GeneratedIdCanReplace(r: Repository, p: Product, now: nat)
    requires Valid(r) && Products.Valid(p) && !IsTruthy(p.id)
    requires FindById(r, GeneratedId(r.nextId)).Some?
    ensures var (r1, p1) := Save(r, p, now);
      p1.id == GeneratedId(r.nextId) && |FindAll(r1)| == |FindAll(r)|
  {
  }
}
