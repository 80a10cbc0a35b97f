# Catalogue domain core in Dafny

A model of the domain core of a hexagonal Laravel product/category catalogue. The model is built from immutable values and pure functions. It covers five layers:

- **Value objects.** `CategoryName`, `ProductName`, `CategoryId` and `Price` validate themselves on construction.
- **Entities.** `Category` and `Product` carry validated updates and two timestamps.
- **In-memory repositories.** Each is an id-keyed PHP array kept in insertion order. The product store also has an id counter.
- **Domain services.** `CategoryDomainService` and `ProductDomainService` are boolean policies, statistics and price rules over repository state.
- **Application use cases.** Each one builds or loads an entity, lets it validate itself, then saves or deletes it.

Three pieces of PHP behaviour are modelled in `php_strings.dfy`, for text that is valid UTF-8:
- `trim` with its default character list (space, `\t`, `\n`, `\r`, `\0`, `\x0B`);
- `empty()` on a string, which is true for `""` and for `"0"`;
- `strlen`, taken as the UTF-8 byte length of a Dafny string.

A thrown `InvalidArgumentException` becomes `Failure(e)`. The `Errors.Message` function maps each `e` to the exact exception text.

Three inputs become parameters:
- The wall clock is a parameter `now: nat`.
- The id that `uniqid` would produce is a parameter `freshId`.
- Prices are exact `real` numbers, not IEEE floats.

A repository is a value. An operation that changes it returns the new repository alongside its answer. A service or use case also returns the port calls it made, in order, where the order is observable (`canCreateProduct`, the use cases). Domain services never return a repository, so they are read-only by construction.

Files:
- `wrappers.dfy`: `Option`, `Result` and `Outcome`.
- `php_strings.dfy`: `trim`, `empty`, `strlen`, decimal rendering.
- `errors.dfy`: the exception messages.
- `value_objects.dfy`, `entities.dfy`, `tables.dfy` (the ordered PHP array), `repositories.dfy`.
- `services.dfy`: both domain services, plus `PriceStatistics` (sum, mean, extremes).
- `use_cases.dfy`.

## Model

| member | source | states |
|---|---|---|
| NameRules.CheckBoundedName | app/Core/Domain/ValueObjects/CategoryName.php:37-48 | succeeds exactly when the trimmed input is not PHP-empty (so `"0"` fails) and is at most 255 UTF-8 bytes; a blank input reports the empty error even when it is also too long; on success the value is the trimmed input, which is clean: trimming it again changes nothing |
| NameRules.LengthBoundary | app/Core/Domain/ValueObjects/CategoryName.php:45-47 | for clean ASCII text, 255 characters are accepted unchanged and 256 characters are rejected with the too-long error |
| CategoryNames.Create | app/Core/Domain/ValueObjects/CategoryName.php:25-48 | accepts exactly the inputs whose trim is a non-empty name of at most 255 bytes and stores the trimmed form; "Category name cannot be empty" comes before "cannot exceed 255 characters" |
| CategoryNames.Equals | app/Core/Domain/ValueObjects/CategoryName.php:76-79 | true iff the two names are the same value (hence reflexive and symmetric, false for different values) |
| CategoryNames.RebuildIsIdentity | app/Core/Domain/ValueObjects/CategoryName.php:25-29 | building a name again from the string it returns gives the same name: the normalisation is idempotent |
| CategoryNames.PaddingIsIgnored | app/Core/Domain/ValueObjects/CategoryName.php:25-29 | surrounding whitespace of the trimmed kinds does not change the outcome, so `"  Eletrônicos  "` equals `"Eletrônicos"` |
| CategoryNames.CleanNameIsKept | app/Core/Domain/ValueObjects/CategoryName.php:37-48 | a name that is already clean, non-empty and at most 255 bytes is stored exactly as given |
| ProductNames.Create | app/Core/Domain/ValueObjects/ProductName.php:25-48 | the same rule with the product messages: accepted iff the trim is non-empty and at most 255 bytes; empty check first; trimmed value stored |
| ProductNames.Equals | app/Core/Domain/ValueObjects/ProductName.php:76-79 | true iff the two names are the same value |
| ProductNames.RebuildIsIdentity | app/Core/Domain/ValueObjects/ProductName.php:25-29 | rebuilding from the stored string gives the same name |
| CategoryIds.Create | app/Core/Domain/ValueObjects/CategoryId.php:23-42 | accepted iff the trimmed input is not PHP-empty, with no other restriction; otherwise "Category ID cannot be empty"; the stored value is the trimmed input and is itself clean |
| CategoryIds.Equals | app/Core/Domain/ValueObjects/CategoryId.php:70-73 | true iff the two ids are the same value |
| CategoryIds.CleanIdIsKept | app/Core/Domain/ValueObjects/CategoryId.php:35-42 | any non-blank id without surrounding whitespace is kept verbatim, whatever its length or format |
| Prices.Create | app/Core/Domain/ValueObjects/Price.php:23-40 | accepted iff the value is at least zero (zero included) and stored unchanged; otherwise "Price cannot be negative" |
| Prices.Equals | app/Core/Domain/ValueObjects/Price.php:68-71 | true iff the two prices hold the same value |
| Prices.RoundTrip | app/Core/Domain/ValueObjects/Price.php:47-60 | the value read back equals the value given, and building a price from it again gives the same price |
| Categories.ValidateName | app/Core/Domain/Entities/Category.php:53-64 | the entity's own name check accepts and rejects exactly what `CategoryName` does, with the same error, and yields the same trimmed name |
| Categories.Create | app/Core/Domain/Entities/Category.php:30-45 | fails exactly as `CategoryName` fails; on success the category is active, keeps the trimmed name and the verbatim description, has both timestamps equal to the construction time, and takes the supplied id or else the fresh one; the result is valid |
| Categories.UpdateName | app/Core/Domain/Entities/Category.php:82-87 | an invalid name gives the constructor's error and no new category; otherwise only the name (trimmed) and `updatedAt` change |
| Categories.OperationsPreserveValid | app/Core/Domain/Entities/Category.php:82-116 | with a clock that does not run backwards, every update keeps the category valid and never changes id or `createdAt`; each changes only its own field and `updatedAt` |
| Categories.UpdateDescription | app/Core/Domain/Entities/Category.php:94-98 | any description is accepted verbatim; only the description and `updatedAt` change, and a valid category stays valid when the clock does not run backwards |
| Categories.Activate | app/Core/Domain/Entities/Category.php:103-107 | the category is active afterwards whatever it was before; only the flag and `updatedAt` change, and validity is kept |
| Categories.Deactivate | app/Core/Domain/Entities/Category.php:112-116 | the category is inactive afterwards whatever it was before; only the flag and `updatedAt` change, and validity is kept |
| Categories.ActivationIdempotent | app/Core/Domain/Entities/Category.php:103-116 | activating (deactivating) twice is activating (deactivating) once; on a category already in that state only `updatedAt` moves |
| Products.ValidateName | app/Core/Domain/Entities/Product.php:60-65 | passes iff the trimmed name is not PHP-empty; otherwise "Product name cannot be empty" |
| Products.ValidatePrice | app/Core/Domain/Entities/Product.php:73-78 | passes iff the price is at least zero; otherwise "Product price cannot be negative" |
| Products.Create | app/Core/Domain/Entities/Product.php:33-52 | a blank name fails with the name error even if the price is also negative; a negative price fails with the price error; otherwise name (untrimmed), price, category and description are stored verbatim, both timestamps are `now`, and a supplied id (even `""`) is kept while only a missing one is generated |
| Products.UpdateName | app/Core/Domain/Entities/Product.php:96-101 | fails iff the trimmed name is blank; otherwise only the name (untrimmed) and `updatedAt` change |
| Products.UpdatePrice | app/Core/Domain/Entities/Product.php:109-114 | fails iff the price is negative; otherwise only the price and `updatedAt` change |
| Products.UpdateCategory | app/Core/Application/UseCases/UpdateProductUseCase.php:43 | the category id is replaced unconditionally; only it and `updatedAt` change, and a valid product stays valid |
| Products.UpdateDescription | app/Core/Application/UseCases/UpdateProductUseCase.php:44 | the description is replaced unconditionally; only it and `updatedAt` change, and a valid product stays valid |
| Products.OperationsPreserveValid | app/Core/Domain/Entities/Product.php:96-114 | each update keeps the product valid and leaves id, `createdAt` and every other field alone |
| Products.EntityHasNoLengthLimit | app/Core/Domain/Entities/Product.php:41-49 | a 256-letter name is accepted by the entity although the `ProductName` value object rejects it as too long |
| InMemoryCategoryRepository.FindById | app/Core/Infrastructure/Database/InMemoryCategoryRepository.php:39-42 | found iff the id is a key of the store, and then the category stored there, which carries that id |
| InMemoryCategoryRepository.Save | app/Core/Infrastructure/Database/InMemoryCategoryRepository.php:26-31 | upserts under the category's id and returns its argument; other ids keep their categories; a new id is appended at the end of `findAll`, while an existing id is replaced in its old position with every other entry in place |
| InMemoryCategoryRepository.FindAll | app/Core/Infrastructure/Database/InMemoryCategoryRepository.php:49-52 | one entry per stored id: same count as the store, every entry is what `findById` returns for its id, every stored category is listed, no id twice; the order is insertion order, as the `Save` and `Delete` rows state |
| InMemoryCategoryRepository.Delete | app/Core/Infrastructure/Database/InMemoryCategoryRepository.php:60-68 | answers true iff the id was stored; an absent id changes nothing; afterwards the id is gone, every other id is unchanged, the count drops by one, and `findAll` is the old listing with that one entry cut out and the rest in their old order |
| InMemoryCategoryRepository.FindActive | app/Core/Infrastructure/Database/InMemoryCategoryRepository.php:75-81 | exactly the active categories of `findAll`, in `findAll` order and each once, hence no more than `findAll` |
| Sequences.FilterIsSubsequence | app/Core/Infrastructure/Database/InMemoryCategoryRepository.php:77-80 | the `array_filter` result is the subsequence of its input at exactly the positions whose element passes the test, each position once and in increasing order |
| Sequences.FilterKeepsDistinct | app/Core/Infrastructure/Database/InMemoryCategoryRepository.php:77-80 | filtering a list whose ids are all different leaves a list whose ids are all different |
| Sequences.FilterAppend | app/Core/Infrastructure/Database/InMemoryProductRepository.php:94-97 | filtering a concatenation is the concatenation of the filtered parts, so a filter respects the order of what it filters |
| InMemoryCategoryRepository.ActiveAfterNewSave | app/Core/Infrastructure/Database/InMemoryCategoryRepository.php:75-81 | saving a category under a new id leaves the active listing as it was, with the new category appended when it is active |
| InMemoryCategoryRepository.FindByName | app/Core/Infrastructure/Database/InMemoryCategoryRepository.php:89-98 | none iff no stored category has exactly that name; otherwise the first such category in insertion order |
| InMemoryProductRepository.GeneratedId | app/Core/Infrastructure/Database/InMemoryProductRepository.php:36 | the counter id is `product_` followed by the decimal counter, and is truthy |
| InMemoryProductRepository.Renumbered | app/Core/Infrastructure/Database/InMemoryProductRepository.php:37-43 | the copy built by the constructor keeps every field of the product except the id and resets both timestamps to `now` |
| InMemoryProductRepository.FindById | app/Core/Infrastructure/Database/InMemoryProductRepository.php:55-58 | found iff the id is a key of the store, and then the product stored there, which carries that (truthy) id |
| InMemoryProductRepository.Save | app/Core/Infrastructure/Database/InMemoryProductRepository.php:27-47 | a truthy id stores and returns the argument itself, leaving the counter alone; an id of `""` or `"0"` stores and returns a renumbered copy under `product_<nextId>` and advances the counter; in both cases only that id changes, the count grows only for a new id, a new id is appended at the end of `findAll`, and an existing id is replaced in its old position |
| InMemoryProductRepository.Delete | app/Core/Infrastructure/Database/InMemoryProductRepository.php:76-84 | answers true iff the id was stored; an absent id changes nothing; afterwards exactly that id is removed, and `findAll` is the old listing with that one entry cut out and the rest in their old order |
| InMemoryProductRepository.FindAll | app/Core/Infrastructure/Database/InMemoryProductRepository.php:65-68 | one entry per stored id, each as `findById` returns it, no id twice; the order is insertion order, as the `Save` and `Delete` rows state |
| InMemoryProductRepository.FindByCategoryId | app/Core/Infrastructure/Database/InMemoryProductRepository.php:92-98 | exactly the stored products of that category, both directions, in `findAll` order and each once |
| InMemoryProductRepository.CategoryListAfterNewSave | app/Core/Infrastructure/Database/InMemoryProductRepository.php:92-98 | saving a product under a new id leaves every category listing as it was, with the saved product appended to its own category's listing |
| InMemoryProductRepository.SaveKeepsProductsValid | app/Core/Infrastructure/Database/InMemoryProductRepository.php:27-47 | saving a valid product keeps every stored product valid |
| InMemoryProductRepository.DeleteKeepsProductsValid | app/Core/Infrastructure/Database/InMemoryProductRepository.php:76-84 | deleting keeps every remaining product valid |
| InMemoryProductRepository.GeneratedIdsDistinct | app/Core/Infrastructure/Database/InMemoryProductRepository.php:36 | different counter values give different ids |
| InMemoryProductRepository.SuccessiveGeneratedIdsDiffer | app/Core/Infrastructure/Database/InMemoryProductRepository.php:30-46 | two id-less products saved one after the other get different ids and are both found afterwards |
| InMemoryProductRepository.GeneratedIdCanReplace | app/Core/Infrastructure/Database/InMemoryProductRepository.php:30-45 | if a product was saved explicitly under the next counter id, an id-less save overwrites it and the count does not grow |
| CategoryService.IsCategoryNameUnique | app/Core/Domain/Services/CategoryDomainService.php:30-44 | true iff the first category with that name, if any, is the excluded one; true whenever no category has the name |
| CategoryService.CanCreateCategory | app/Core/Domain/Services/CategoryDomainService.php:53-56 | the same verdict as the uniqueness check |
| CategoryService.DuplicateNameStillClashes | app/Core/Domain/Services/CategoryDomainService.php:30-44 | with two categories of the same name, excluding the later one still reports a clash and excluding the first one does not |
| CategoryService.CanActivateCategory | app/Core/Domain/Services/CategoryDomainService.php:64-74 | true iff a stored category has that id and is inactive |
| CategoryService.CanDeactivateCategory | app/Core/Domain/Services/CategoryDomainService.php:82-92 | true iff a stored active category has that id |
| CategoryService.ActivationChoices | app/Core/Domain/Services/CategoryDomainService.php:64-92 | for a stored id exactly one of activate and deactivate is allowed; for an absent id neither |
| CategoryService.SavedStateDecides | app/Core/Domain/Services/CategoryDomainService.php:64-92 | after a deactivated category is saved it can be activated and not deactivated, and the other way round |
| CategoryService.CategoryStatistics | app/Core/Domain/Services/CategoryDomainService.php:99-109 | total is the `findAll` count, active the `findActive` count, and inactive is total minus active, which is never negative and equals the number of inactive categories |
| CategoryService.HasProducts | app/Core/Domain/Services/CategoryDomainService.php:117-123 | always false |
| CategoryService.CanDeleteCategory | app/Core/Domain/Services/CategoryDomainService.php:131-145 | true iff a category with that id is stored |
| ProductService.PriceRange | app/Core/Domain/Services/ProductDomainService.php:125-128 | a listed category gets its own band and any other id the default band; every band lies within the default band |
| ProductService.PriceRangeTable | app/Core/Domain/Services/ProductDomainService.php:21-26 | the bands are (10, 1000), (50, 2000), (100, 5000) and (1, 10000) for every other id |
| ProductService.IsCategoryActive | app/Core/Domain/Services/ProductDomainService.php:40-49 | true iff a stored active category has that id |
| ProductService.HasClash | app/Core/Domain/Services/ProductDomainService.php:62-66 | true iff some product in the list has exactly that name and that category |
| ProductService.IsProductNameUnique | app/Core/Domain/Services/ProductDomainService.php:58-69 | true iff no stored product has both the name and the category, so the same name in another category is allowed |
| ProductService.IsPriceWithinAcceptableRange | app/Core/Domain/Services/ProductDomainService.php:78-89 | true iff the category is stored and the price lies inclusively in its band; a true answer implies the price is within the default band |
| ProductService.CanCreateProduct | app/Core/Domain/Services/ProductDomainService.php:99-117 | true iff active, unique and in range; the port calls are one category lookup when inactive, lookup then product listing when the name clashes, and lookup, listing, lookup otherwise |
| ProductService.CreatableHasSanePrice | app/Core/Domain/Services/ProductDomainService.php:99-117 | a creatable product's price passes the entity's price check and lies between 1 and 10000 |
| ProductService.AveragePrice | app/Core/Domain/Services/ProductDomainService.php:136-150 | none iff the category has no products; otherwise the arithmetic mean of their prices, between the cheapest and dearest of them and not negative |
| ProductService.UniformAverage | app/Core/Domain/Services/ProductDomainService.php:136-150 | when every product of the category has the same price, that price is the average |
| ProductService.WithinTolerance | app/Core/Domain/Services/ProductDomainService.php:168-170 | the ±20% window: holds iff 0.8·average ≤ price ≤ 1.2·average |
| ProductService.ToleranceEdges | app/Core/Domain/Services/ProductDomainService.php:168-170 | against an average of 100, the edges 80 and 120 are inside and 79.99 and 120.01 are outside |
| ProductService.IsPriceCompetitive | app/Core/Domain/Services/ProductDomainService.php:159-171 | true when the category has no products; otherwise exactly the ±20% window around the average |
| ProductService.AverageIsCompetitive | app/Core/Domain/Services/ProductDomainService.php:159-171 | the average price itself is always competitive |
| PriceStatistics.MeanBetweenExtremes | app/Core/Domain/Services/ProductDomainService.php:144-149 | the mean of a non-empty list lies between its minimum and maximum price |
| PriceStatistics.MeanWithin | app/Core/Domain/Services/ProductDomainService.php:144-149 | if every price lies in an interval, so does the mean |
| PriceStatistics.MeanTimesCount | app/Core/Domain/Services/ProductDomainService.php:144-149 | the mean times the count gives back the total |
| PriceStatistics.UniformMean | app/Core/Domain/Services/ProductDomainService.php:144-149 | the mean of equal prices is that price |
| UseCases.CreateCategory | app/Core/Application/UseCases/CreateCategoryUseCase.php:36-46 | fails exactly as the category constructor fails, with no save and no change; on success one save of an active category with the trimmed name and verbatim description, found afterwards under its id, other ids unchanged, and the store grows by one for a fresh id |
| UseCases.CreateProduct | app/Core/Application/UseCases/CreateProductUseCase.php:36-48 | a blank name gives the name error and a negative price the price error, with nothing saved; otherwise exactly one save of a product carrying the request's fields, whose result is what `save` returned; no service check is applied |
| UseCases.UpdateProduct | app/Core/Application/UseCases/UpdateProductUseCase.php:31-48 | an unknown id gives "Product not found" after one lookup; a blank name wins over a negative price; any failure saves nothing; on success the stored product keeps its id and `createdAt`, takes the four request fields, and nothing else changes |
| UseCases.UpdateFields | app/Core/Application/UseCases/UpdateProductUseCase.php:41-44 | the four updates in order: name first, then price; on success the product keeps id and `createdAt`, takes the four fields and stays valid |
| UseCases.DeleteProduct | app/Core/Application/UseCases/DeleteProductUseCase.php:29-40 | an unknown id gives "Product not found" with the store untouched; otherwise one lookup then one delete answering true, after which the id is gone, the others are unchanged, the count drops by one and the listing keeps the order of the remaining products |
| UseCases.ListProducts | app/Core/Application/UseCases/ListProductsUseCase.php:28-31 | one `findAll` call, no change; the result is the repository's `findAll` listing, in insertion order, so every stored product is listed once and nothing else; empty store, empty list |
| UseCases.FindProductsByCategory | app/Core/Application/UseCases/FindProductsByCategoryUseCase.php:29-32 | one `findByCategoryId` call, no change; the result is the repository's category listing, so exactly the stored products of the category, in insertion order, no id twice; none for a category without products |
| UseCases.CreatedProductIsListed | app/Core/Application/UseCases/CreateProductUseCase.php:46-47 | a created product appears in the listing and under its category; under a new id it is listed after every product that was there before |
| UseCases.DeletedProductIsGone | app/Core/Application/UseCases/DeleteProductUseCase.php:38-39 | a deleted product is in neither listing, and deleting it again reports it missing |
| UseCases.UpdateIsIdempotent | app/Core/Application/UseCases/UpdateProductUseCase.php:41-47 | applying the same update twice stores the same fields; only `updatedAt` follows the clock |

## Left out

- The HTTP layer is outside the domain core: controllers, form requests, routes and service-provider wiring.
- `Price::format` is locale display through `number_format` and is not modelled.
- PHP strings that are not valid UTF-8 are not modelled. A Dafny string holds Unicode scalar values, so `trim`, `empty` and `strlen` are exact only on valid UTF-8 input.
- IEEE float rounding is not modelled: prices, sums, averages and the 0.2 tolerance are exact reals.
- `uniqid` and `new \DateTime()` are not modelled. They become the `freshId` and `now` parameters.
- The repository port interfaces are not modelled as such. The services and use cases take the in-memory repositories directly.
- The int/string mismatch of a product's category id is not modelled. `Product.php` and `findByCategoryId` type it as `int`, while the DTOs and `ProductDomainService` use `string`. The model uses one string type, so no PHP type error or cross-type strict comparison arises.
- `findActive` and `findByCategoryId` return `array_filter` results, which keep the id keys of the store. The model returns the values as a list in the same iteration order and drops the keys.
- PHP's conversion of numeric-string array keys to integers is not modelled. Lookups behave the same either way.
- `updateCategory` and `updateDescription` are called by `UpdateProductUseCase` but are not defined in `Product.php`. They are modelled as unconditional setters that refresh `updatedAt` (`Products.UpdateCategory`, `Products.UpdateDescription`).
- Reference aliasing is not modelled. PHP stores the entity object itself, so a later mutation, such as a name update before a failing price update, is visible in the store without a save. Here entities are values, and the store changes only through `save`.
- UseCases.UpdateProduct: assumes the clock reading is not earlier than any stored product's `updatedAt` (`ClockNotBehind`). Under that assumption the stored invariant `createdAt <= updatedAt` is kept.
- Port calls record only their kind, argument and order, not the objects passed.
- Where test text disagrees with the code, the model follows the code. An example is the message expected for a negative price in an update, which the entity reports as "Product price cannot be negative".
- `getValue`, `__toString`, `__toFloat` and the entity getters are field reads of the datatypes. They have no row of their own. Their contracts are part of the `Create`, update and round-trip rows.
