# Category catalog: search, entity rules and repository decisions

A model of the core of a catalog-management backend (categories of videos).
It covers four parts:

- **The in-memory searchable repository.** It filters the items, sorts them,
  then cuts out one page. Sorting happens only when the requested field is
  on the repository's allow-list of sortable fields. The page window starts
  at `(page-1)*per_page` and holds at most `per_page` items. `total` counts the items before pagination.
  The filter is abstract in the source, so here it is a parameter.
  `applySort` sorts a fresh copy of the array in place; the model keeps that
  copy, and the sort is proved equal to a stable insertion sort stated as a
  function.
- **The Category entity.** It covers the constructor's defaults, `create`
  (which validates once), and the mutators `changeName` and
  `changeDescription` (which validate again). `activate` and `deactivate`
  are covered too. The validator maps each broken field to its messages.
- **The create-category input.** Its constructor copies the props it is
  given. Its field rules are stated as an explicit predicate.
- **The Sequelize category repository.** This part covers the query
  descriptor `search` builds and the not-found rules of `update` and
  `delete`:
  - the descriptor holds the offset and limit, a `LIKE` filter on the name,
    an allow-listed order with a mysql override, and a fallback order;
  - `update` and `delete` work over a table of rows keyed by category id.

Files:

- `wrappers.dfy`: `Option`, `Result` and `Outcome`.
- `search_types.dfy`: search parameters and search results.
- `class_validator.dfy`: the field rules and their default messages.
- `in_memory_searchable.dfy`: the in-memory repository.
- `category_entity.dfy`: the Category entity.
- `create_category_input.dfy`: the create-category input.
- `category_sequelize_repository.dfy`: the Sequelize repository.

Loosely typed JavaScript values are the datatype
`Value = Undefined | Null | Str | Num | Bool`. Identifiers and timestamps are
opaque values. The identifier the entity would generate and the current time
are constructor parameters.

The entity's own source file, `src/category/domain/category.entity.ts`, is
not part of this model. Its behaviour is taken from its unit tests, with
these readings:

- null or undefined props fall back to their defaults;
- a mutator assigns first and validates afterwards, so a failed validation
  leaves the new value in place;
- `activate` and `deactivate` do not validate;
- the constructor does not validate and `create` validates once, so a
  category built by `create` has been validated exactly once;
- a null or undefined `is_active` is skipped by its rule, like an optional
  field. The tests pin only a non-boolean `is_active`, and no modelled
  operation produces a null or undefined one: the constructor defaults it to
  true, and only `activate` and `deactivate` write it afterwards.

Two behaviours of the code are worth stating outright:

- `findByIds` and `existsById` of the Sequelize repository always fail with
  "Method not implemented."
  (`src/core/category/infra/db/sequelize/category-sequelize.repository.ts`,
  lines 24-29), although the repository interface declares them as returning
  the entities and an `{exists, not_exists}` split
  (`src/core/shared/domain/repository/repository-interface.ts`, lines 17-21).
- The in-memory comparator
  (`src/shared/infra/db/in-memory/in-memory-searchable.repository.ts`,
  lines 67-73) sorts descending for every `sort_dir` other than exactly
  `"asc"`, null included. Any default direction would come from the
  normalisation of the search parameters, which is not part of this model.

## Model

| member | source | states |
|---|---|---|
| InMemorySearchable.CompareSpec | src/shared/infra/db/in-memory/in-memory-searchable.repository.ts:67-75 | The comparator answers -1, 0 or 1. It answers 0 exactly when the keys are equal. It answers negative exactly when the keys ascend under "asc", or descend under any other direction. Swapping the arguments negates the answer. |
| InMemorySearchable.SortByKeySorted | src/shared/infra/db/in-memory/in-memory-searchable.repository.ts:62-76 | Sorting with the comparator orders every pair of items as the direction asks. |
| InMemorySearchable.SortByKeyStable | src/shared/infra/db/in-memory/in-memory-searchable.repository.ts:62-76 | For every key, the items with that key appear in the same relative order before and after the sort, so the sort is stable. |
| InMemorySearchable.SortedItems | src/shared/infra/db/in-memory/in-memory-searchable.repository.ts:58-62 | If the sort field is null, empty or not sortable, the items come back unchanged and in the same order. In every case the result is a permutation of the input. |
| InMemorySearchable.SortedItemsOrdered | src/shared/infra/db/in-memory/in-memory-searchable.repository.ts:62-76 | When the sort applies, the result is a permutation of the input. It is non-decreasing by the field's value for "asc" and non-increasing for anything else, null included. Items with equal values keep their input order. |
| InMemorySearchable.ApplySort | src/shared/infra/db/in-memory/in-memory-searchable.repository.ts:52-77 | When the sort does not apply, the very same array comes back. Otherwise a fresh array comes back and the input array is left as it was. The contents are the sorted items. |
| InMemorySearchable.SortInPlace | src/shared/infra/db/in-memory/in-memory-searchable.repository.ts:62 | The in-place sort of the copy leaves it holding exactly the stable sort of its old contents. |
| InMemorySearchable.ApplyPaginate | src/shared/infra/db/in-memory/in-memory-searchable.repository.ts:42-50 | The page holds at most `per_page` items. Its length is that of the window from `(page-1)*per_page` clipped to the input. Item i of the page is item `(page-1)*per_page + i` of the input. A page past the end is empty. |
| InMemorySearchable.ApplyPaginateSubBag | src/shared/infra/db/in-memory/in-memory-searchable.repository.ts:42-50 | A page holds only items of its input, counted with multiplicity. |
| InMemorySearchable.PagesCoverAll | src/shared/infra/db/in-memory/in-memory-searchable.repository.ts:42-50 | Pages 1 to ceil(n/per_page), concatenated, give back the whole list. Every page after the last one is empty. |
| InMemorySearchable.Search | src/shared/infra/db/in-memory/in-memory-searchable.repository.ts:17-35 | `total` is the number of filtered items, whatever the page. `current_page` and `per_page` echo the request. The page holds at most `per_page` items and is empty once its start passes `total`. |
| InMemorySearchable.SearchItems | src/shared/infra/db/in-memory/in-memory-searchable.repository.ts:18-28 | The items of a search are the requested page of the filtered, then sorted, list. |
| InMemorySearchable.SearchItemsAreFiltered | src/shared/infra/db/in-memory/in-memory-searchable.repository.ts:18-28 | Every returned item is a filtered item, counted with multiplicity. |
| InMemorySearchable.SearchIgnoresUnsortableField | src/shared/infra/db/in-memory/in-memory-searchable.repository.ts:58-60 | A sort field that is empty or not sortable gives the same result as no sort at all. The page is then cut from the filtered items in their own order. |
| InMemorySearchable.SearchPagesCoverAll | src/shared/infra/db/in-memory/in-memory-searchable.repository.ts:17-35 | Walking pages 1 to ceil(total/per_page) yields the whole filtered, sorted list, so the page lengths add up to `total`. |
| InMemorySearchable.SecondPageOfTwenty | src/shared/infra/db/in-memory/in-memory-searchable.repository.ts:42-50 | With 20 matching items and 15 per page, page 2 holds 5 items and `total` is 20. |
| InMemorySearchable.ThreeNamesAscending | src/shared/infra/db/in-memory/in-memory-searchable.repository.ts:62-76 | Names c, a, b sorted ascending by name come out a, b, c. |
| CategoryEntity.InitialDefaults | src/category/domain/__tests__/category.entity.spec.js:11-20 | A category built from a name alone gets the generated id, a null description, `is_active` true and the current time as `created_at`. |
| CategoryEntity.InitialKeepsGiven | src/category/domain/__tests__/category.entity.spec.js:21-99 | The name, and any id, description, `is_active` or `created_at` that is supplied (not null or undefined), are stored exactly as given. |
| CategoryEntity.Category.constructor | src/category/domain/__tests__/category.entity.spec.js:11-45 | The new category holds the props with their defaults. It has not been validated. |
| CategoryEntity.Category.Create | src/category/domain/__tests__/category.entity.spec.js:48-82 | `create` succeeds exactly when the defaulted props are well formed, and otherwise fails with the validator's error map. A successful result is a fresh category holding those props, validated exactly once. |
| CategoryEntity.Category.RunValidation | src/category/domain/__tests__/category.entity.spec.js:57 | Each run counts one validation. It passes exactly for a well-formed category, and otherwise yields the non-empty error map. |
| CategoryEntity.Category.ChangeName | src/category/domain/__tests__/category.entity.spec.js:101-108 | The name becomes the new value and nothing else changes. Validation runs once more, on the new state. |
| CategoryEntity.Category.ChangeDescription | src/category/domain/__tests__/category.entity.spec.js:109-116 | The description becomes the new value and nothing else changes. Validation runs once more, on the new state. |
| CategoryEntity.Category.Activate | src/category/domain/__tests__/category.entity.spec.js:117-124 | `is_active` becomes true whatever it was, and nothing else changes. |
| CategoryEntity.Category.Deactivate | src/category/domain/__tests__/category.entity.spec.js:125-132 | `is_active` becomes false whatever it was, and nothing else changes. |
| CategoryEntity.NameMessages | src/category/domain/__tests__/category.entity.spec.js:136-157 | There are no name messages exactly for a string of 1 to 255 characters. Each of the three messages appears exactly when its own rule (not empty, a string, at most 255 characters) is broken. |
| CategoryEntity.NameMessageCases | src/category/domain/__tests__/category.entity.spec.js:136-157 | A null name gives all three messages in order. `""` gives only "should not be empty". 5 gives "must be a string" and the 255 message. A 256-character string gives only the 255 message. |
| CategoryEntity.Validate | src/category/domain/__tests__/category.entity.spec.js:134-167 | The error map has only the keys name, description and is_active. Each key is present exactly when its field breaks a rule: a name that is not a 1 to 255 character string, a present non-string description, or a present non-boolean `is_active`. Each present key carries that field's messages. |
| CategoryEntity.ValidateAcceptsWellFormed | src/category/domain/__tests__/category.entity.spec.js:134-167 | The error map is empty exactly for the categories that are well formed, field by field. |
| CategoryEntity.WrongTypeCases | src/category/domain/__tests__/category.entity.spec.js:158-167 | A description of 5 yields "description must be a string", and an `is_active` of 5 yields "is_active must be a boolean value". |
| CategoryEntity.ValidationOutcome | src/category/domain/__tests__/category.entity.spec.js:134-200 | Validation passes exactly for a well-formed category. Otherwise it throws the non-empty error map. |
| CategoryEntity.RenameOutcome | src/category/domain/__tests__/category.entity.spec.js:169-192 | Renaming a well-formed category fails exactly when the new name breaks a name rule. The error map then holds the name's messages alone. |
| CategoryEntity.RedescribeOutcome | src/category/domain/__tests__/category.entity.spec.js:193-200 | A new description fails exactly when it is present and not a string. The error map then holds only "description must be a string". |
| CategoryEntity.ToggleKeepsWellFormed | src/category/domain/__tests__/category.entity.spec.js:117-132 | Activating or deactivating never makes a well-formed category invalid. |
| ClassValidator.OptionalRule | src/category/application/use-cases/create-category/create-category.input.ts:14-16 | An optional field gives no message when it is null or undefined or its rule holds. Otherwise it gives exactly that rule's message. |
| CreateCategory.CreateCategoryInput.constructor | src/category/application/use-cases/create-category/create-category.input.ts:22-26 | Falsy props leave every field unset. Otherwise each prop lands in the field of the same name. |
| CreateCategory.NameMessages | src/category/application/use-cases/create-category/create-category.input.ts:10-12 | There are no messages exactly for a non-empty string. "should not be empty" appears exactly for null, undefined or "". "must be a string" appears exactly for a non-string. The string message comes first, because `IsString` is registered before `IsNotEmpty`. |
| CreateCategory.InputErrors | src/category/application/use-cases/create-category/create-category.input.ts:9-20 | The error map has only the keys name, description and is_active. name is present unless it is a non-empty string. description is present only if it is present and not a string. is_active is present only if it is present and not a boolean. Each present key carries its messages. |
| CreateCategory.InputErrorsEmptyIffValid | src/category/application/use-cases/create-category/create-category.input.ts:9-20 | The input passes exactly when it is acceptable, field by field. |
| CreateCategory.NameIsRequired | src/category/application/use-cases/create-category/create-category.input.ts:10-11 | An undefined, null or empty name is refused with "should not be empty". A non-string name is refused with "must be a string". |
| CreateCategory.UnsetInputRefused | src/category/application/use-cases/create-category/create-category.input.ts:22-23 | An input built from falsy props is refused on its name alone. |
| CreateCategory.AcceptedInputMakesWellFormedCategory | src/category/application/use-cases/create-category/create-category.input.ts:9-20 | An accepted input whose name fits in 255 characters builds a well-formed category. |
| CategorySequelize.FormatSort | src/core/category/infra/db/sequelize/category-sequelize.repository.ts:122-128 | The binary-collation literal is used exactly for `name` on the mysql dialect. Every other pair yields `[[sort, sort_dir]]`. In both cases the only column ordered is the requested one. |
| CategorySequelize.SearchOptions | src/core/category/infra/db/sequelize/category-sequelize.repository.ts:96-111 | The offset is `(page-1)*per_page` and the limit is `per_page`. A `where` is present exactly for a non-empty filter, and it matches the name against `%filter%`. Every ordered column is in `['name','created_at']`. A sortable request is ordered through `formatSort`, and any other request by `created_at desc`. |
| CategorySequelize.UnsortableFieldFallsBack | src/core/category/infra/db/sequelize/category-sequelize.repository.ts:105-108 | A sort field outside the allow-list never reaches the order, on any dialect. The order is then `created_at desc`. |
| CategorySequelize.WindowIsPage | src/core/category/infra/db/sequelize/category-sequelize.repository.ts:97-98 | The rows the descriptor's offset and limit select are exactly the page the in-memory repository cuts. |
| CategorySequelize.Search | src/core/category/infra/db/sequelize/category-sequelize.repository.ts:96-120 | The result carries the rows and the count that `findAndCountAll` returns for the descriptor. `current_page` and `per_page` echo the request. |
| CategorySequelize.CategorySequelizeRepository.FindByPk | src/core/category/infra/db/sequelize/category-sequelize.repository.ts:78-80 | A row is found exactly when the key is in the table, and it carries that id. |
| CategorySequelize.CategorySequelizeRepository.Destroy | src/core/category/infra/db/sequelize/category-sequelize.repository.ts:63-65 | The row with the id is removed. The count is 1 if there was one and 0 otherwise. |
| CategorySequelize.CategorySequelizeRepository.Update | src/core/category/infra/db/sequelize/category-sequelize.repository.ts:48-58 | With no row for the entity's id, `update` fails with NotFound for that id and the table is unchanged. Otherwise that row is replaced by the entity. |
| CategorySequelize.CategorySequelizeRepository.Delete | src/core/category/infra/db/sequelize/category-sequelize.repository.ts:60-70 | The row with the id is gone afterwards. `delete` succeeds exactly when there was one, and otherwise fails with NotFound for the id. |
| CategorySequelize.CategorySequelizeRepository.FindByIds | src/core/category/infra/db/sequelize/category-sequelize.repository.ts:24-26 | Every call fails as not implemented. |
| CategorySequelize.CategorySequelizeRepository.ExistsById | src/core/category/infra/db/sequelize/category-sequelize.repository.ts:27-29 | Every call fails as not implemented. |

## Left out

- InMemorySearchable.SortedItemsOrdered: the field values are integers returned by a `getter` parameter. JavaScript's `<` on mixed types, `undefined` and `NaN` is not modelled. Under `NaN` the engine's comparator is not a consistent order.
- InMemorySearchable.ApplySort: the custom getter of the source is folded into the same `getter` parameter, so direct property access and a custom getter are not told apart.
- InMemorySearchable.Search: `page >= 1` and `per_page >= 1` are preconditions. The normalisation of the search parameters is not part of this model.
- InMemorySearchable.Search: the filter is any function of the items and the filter value. The repositories that implement it are not part of this model.
- CategorySequelize.Search: the rows are returned as stored. The model-to-entity mapper is not part of this model.
- CategorySequelize.SearchOptions: the filter text goes into the `LIKE` pattern unescaped, so `%` and `_` in a filter act as wildcards. The model records the pattern and does not model the matching.
- CategorySequelize.FormatSort: the dialect is a string parameter. The per-dialect lookup is stated for the mysql `name` override only, which is the only one the repository declares.
- Executing queries (`findAndCountAll`, `bulkCreate`, `findAll`) is left to the ORM and is not modelled. `findAndCountAll` is a parameter of `Search`.
- `insert`, `bulkInsert`, `findById` and `findAll` of the Sequelize repository are not modelled. They are direct ORM calls with no decision logic.
- The entity mapper, the model definition and the `getEntity` constructor reference are not modelled.
- CategoryEntity.Category.constructor: UUID generation and `new Date()` are not modelled. The generated id and the current time are parameters.
- CategoryEntity.NameMessages: the length is the number of Unicode scalar values (Dafny `char`s), so a surrogate pair counts as one character, as in the validator library. Recent versions of that library also skip variation selectors when counting; this model counts them.
- The format check of the `Uuid` value object is not modelled, and `src/shared/domain/value-objects/uuid.vo.ts` is not part of this model.
- The promise and async behaviour of the repositories is not modelled; every operation is synchronous.
- The use cases are not modelled. They orchestrate, asynchronously, entities and value objects whose source is not part of this model (`CastMember`, `CastMemberType`, the notification object), and they log to the console.
- The cast-member output mapping is not modelled. It renames the fields of a `toJSON()` result whose source is not part of this model.
- The repository interfaces are not modelled. They declare signatures only.
- The end-to-end HTTP tests are not modelled. They exercise the web framework wiring.
