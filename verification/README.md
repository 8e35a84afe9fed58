# Products app of django-shop, in Dafny

This project models the `products` app of the django-shop tutorial
project (`django-shop/products/models.py`). That file holds the only
logic the app adds on top of Django:

- **Slug assignment.** `Product._ensure_slug` runs when a product is saved.
  A product with no slug gets one derived from its name. The code tries
  `base`, `base-2`, `base-3`, … and keeps the first candidate that no
  *other active* product holds. The base is `slugify(name)`, or `"product"`
  when that is empty.
- **Publication.** A product's status is draft, published or archived.
  `Product.publish` and the back-fill in `Product.save` only ever make a
  product published, never draft or archived. They also set the nullable
  `published_at` timestamp.
- **Queryset filters.** `ProductQuerySet.active`, `published` and `search`.
- **Category names.** `Category.__str__` renders the chain of parent
  categories.
- **Row constraints.** The `Meta` classes declare checks on price, tag
  weight, unique (product, tag) pairs, self-parenting, and case-insensitive
  uniqueness.

Modules, one per concern of the file:

- `Records` (`records.dfy`): the rows, and the declared constraints as predicates on tables.
- `Text` (`text.dfy`): decimal rendering of the slug counter, and ASCII case folding for `icontains`.
- `Slugs` (`slugs.dfy`): candidates, the database test of the loop, and the search loop itself.
- `Lifecycle` (`lifecycle.dfy`): the publication state as pure transitions, with lemmas over runs of publishes and saves.
- `Products` (`products.dfy`): class `Product`. Its methods update the instance's fields in place and are specified by the functions above.
- `Queries` (`queries.dfy`): a queryset is a sequence of rows; `filter` keeps order.
- `Categories` (`categories.dfy`): `__str__` over a table of categories keyed by id.

Some of Django is not part of this model and appears only as parameters:

- `slugify` is a function parameter.
- `timezone.now()` is a `now` parameter.
- The product table that `Product.objects` queries is a sequence of rows passed in.
- `exclude(pk=self.pk)` is modelled with an optional key. Excluding `pk=None` excludes no row.

In the slug loop, candidates are compared with exact equality, as the code
does. The declared constraint `product_slug_ci_unique_active` ignores case.
Lemma `Slugs.ExactTestMissesCaseOnlyClash` shows a table and a product where
the loop picks a slug that this constraint would refuse.

`publish` saves with `update_fields=["status", "published_at", "updated_at"]`.
The `save` it calls still runs `_ensure_slug` on the instance. The model
includes that in-memory slug assignment. Whether the slug is written to the
database is the ORM's business and is not modelled.

## Model

| member | source | states |
|---|---|---|
| `Slugs.BaseSlug` | django-shop/products/models.py:172 | the base is never empty: it is `slugify(name)` when that is non-empty and `"product"` otherwise |
| `Slugs.CandidateInjective` | django-shop/products/models.py:173-178 | `base`, `base-2`, `base-3`, … are pairwise different strings |
| `Text.Decimal` | django-shop/products/models.py:177 | `str(i)` in `f"{base}-{i}"`: a non-empty string of decimal digits with no leading zero whose value is `i` |
| `Text.DecimalInjective` | django-shop/products/models.py:177 | the decimal text of the counter `i` in `f"{base}-{i}"` determines `i` |
| `Slugs.TakenIsQueryNonEmpty` | django-shop/products/models.py:176 | the loop test `Taken` (some row is active, has the slug, and is not the product itself; `exclude(pk=None)` excludes nothing) holds exactly when `filter(slug=…, is_active=True).exclude(pk=…)` leaves a row |
| `Slugs.HeldSlugs` | django-shop/products/models.py:176 | the slugs that block a candidate are exactly the slugs of active rows other than the product itself; there are at most as many as rows |
| `Slugs.FindFreeSlug` | django-shop/products/models.py:172-179 | the loop terminates. Its result is the first candidate in the order base, base-2, … that is free. Every earlier candidate is held by another active row. No active row with a different pk holds the result, and the result is `base` or `base-<i>` for some i ≥ 2 |
| `Slugs.FirstFreeDeterminesSlug` | django-shop/products/models.py:173-179 | at most one slug satisfies the "first free candidate" property, so the loop's answer depends only on the table, the pk and the base |
| `Slugs.TakenPrefixWithinTableSize` | django-shop/products/models.py:176-178 | if other active rows hold the first n candidates, the table has at least n rows (this bounds the number of iterations) |
| `Slugs.HeldWithinActive` | django-shop/products/models.py:176 | there are no more blocking slugs than active rows |
| `Slugs.FirstFreeWithinTableSize` | django-shop/products/models.py:174-178 | the loop stops within (number of active rows + 1) candidates, since each rejected candidate is a distinct slug held by an active row |
| `Slugs.StoringFreeSlugKeepsSlugsDistinct` | django-shop/products/models.py:175-179 | appending a new row whose slug the loop found free keeps active slugs pairwise different under exact comparison |
| `Slugs.ExactTestMissesCaseOnlyClash` | django-shop/products/models.py:147-151 | the loop tests slugs with exact equality. A table that satisfies `product_slug_ci_unique_active` can still have a slug chosen that clashes with it when case is ignored |
| `Products.SlugAssigned` | django-shop/products/models.py:170-179 | the effect of `_ensure_slug` on the slug: afterwards a named product has a non-empty slug, and a slug it was just given is held by no other active row |
| `Products.Product.constructor` | django-shop/products/models.py:103-119 | a new product is unsaved and has an empty slug and description. Its price is 0, so the non-negative-price check holds. It is active, draft, and has no `published_at` |
| `Products.Product.Load` | django-shop/products/models.py:94-119 | an instance holds exactly the field values of a stored row |
| `Products.Product.EnsureSlug` | django-shop/products/models.py:169-179 | only the slug changes. A product that already has a slug, or has an empty name, keeps its slug. Otherwise the slug becomes the first free candidate from `BaseSlug(name)`. Afterwards a named product always has a non-empty slug |
| `Products.Product.Save` | django-shop/products/models.py:181-185 | assigns the slug as `_ensure_slug` does. The publication state becomes the back-filled one. A published product then has a `published_at`; other statuses keep theirs unchanged |
| `Products.Product.Publish` | django-shop/products/models.py:162-166 | the publication state becomes `Lifecycle.Publish` of the old one. A product that was already published keeps its slug and state. Any other product is saved (slug assigned) and ends up published with a timestamp |
| `Products.SaveThenPublish` | django-shop/products/models.py:162-185 | a new named product saved as a draft and then published gets a free slug from the save and `published_at` = the publish time |
| `Lifecycle.Publish` | django-shop/products/models.py:162-165 | the status becomes published, and an already-published state is returned unchanged. Otherwise an existing `published_at` is kept and `now` is used only when there is none. Consistency (published implies a timestamp) is preserved |
| `Lifecycle.Backfill` | django-shop/products/models.py:183-184 | the status never changes, and the result is always consistent. A published state without a timestamp gets `now`. A non-published state keeps its `published_at`, and an existing timestamp is never replaced |
| `Lifecycle.SaveInsidePublishKeepsTimestamp` | django-shop/products/models.py:165-166 | the save inside `publish` never overwrites the timestamp `publish` chose |
| `Lifecycle.PublishIdempotent` | django-shop/products/models.py:162-166 | publishing twice equals publishing once, whatever the second clock reading |
| `Lifecycle.Step` | django-shop/products/models.py:162-185 | one call of `publish` has the effect of the publish assignments alone, because the save inside it never back-fills. A call never makes a consistent state inconsistent |
| `Lifecycle.Run` | django-shop/products/models.py:162-185 | over any sequence of publishes and saves: a consistent state stays consistent; once `published_at` is set it never changes; the status is kept or becomes published, so no product is drafted or archived |
| `Lifecycle.RunKeepsConsistent` | django-shop/products/models.py:162-185 | publishes and saves preserve "published implies a timestamp", and a run starting with a save establishes it |
| `Lifecycle.PublishesCollapse` | django-shop/products/models.py:162-166 | a run of several `publish` calls equals the first one alone; only its clock reading is used |
| `Queries.Where` | django-shop/products/models.py:83 | `filter` keeps exactly the rows satisfying the condition and never yields more rows than it was given |
| `Queries.WhereAppend` | django-shop/products/models.py:81-91 | filtering preserves the order of rows: it distributes over concatenation |
| `Queries.WhereCongruent` | django-shop/products/models.py:81-91 | filters on conditions that agree on every row yield the same rows |
| `Queries.WhereWhere` | django-shop/products/models.py:81-91 | two filters in a row equal one filter on the conjunction of their conditions |
| `Queries.Matches` | django-shop/products/models.py:91 | `Q(name__icontains=q)` or `Q(description__icontains=q)`: a row whose name or description contains `q`, or `q` lower-cased, literally always matches |
| `Queries.Active` | django-shop/products/models.py:82-83 | `active()` yields exactly the rows with `is_active` true |
| `Queries.Published` | django-shop/products/models.py:85-86 | `published()` yields exactly the active rows whose status is published |
| `Queries.Search` | django-shop/products/models.py:88-91 | with no query or an empty one, the queryset is returned unchanged. Otherwise the result is exactly the rows whose name or description contains the query, ignoring case |
| `Queries.PublishedWithinActive` | django-shop/products/models.py:82-86 | `published()` is `active()` narrowed to status published, in the same order, so every published row is an active row |
| `Queries.SearchCommutesWithActive` | django-shop/products/models.py:82-91 | `active().search(q)` and `search(q).active()` yield the same rows in the same order |
| `Queries.SearchIdempotent` | django-shop/products/models.py:88-91 | searching a search result with the same text changes nothing |
| `Queries.SearchFindsExactName` | django-shop/products/models.py:91 | a row whose name contains the query text exactly is in the search result |
| `Queries.SearchIgnoresQueryCase` | django-shop/products/models.py:88-91 | searching with the query lower-cased gives the same rows as searching with the query as typed |
| `Text.ExactOccurrenceIsFound` | django-shop/products/models.py:91 | a literal substring is also a substring once case is ignored |
| `Text.NeedleCaseIgnored` | django-shop/products/models.py:91 | `icontains` gives the same answer for a query and its lower-cased form |
| `Categories.Label` | django-shop/products/models.py:46-47 | a successful rendering belongs to an existing category and ends with that category's name |
| `Categories.Str` | django-shop/products/models.py:46-47 | a category without a parent renders as its name |
| `Categories.LabelMonotone` | django-shop/products/models.py:46-47 | a rendering that succeeds with some categories in progress gives the same text with fewer in progress |
| `Categories.RenderedParent` | django-shop/products/models.py:46-47 | in any table, a category that renders and has a parent renders as its parent's own `str`, then `" > "`, then its name |
| `Categories.RendersIffReachesRoot` | django-shop/products/models.py:46-47 | `str` succeeds exactly when the category's own parent chain reaches a stored root; a chain that runs into a cycle anywhere above it, or names a missing parent, has no rendering |
| `Categories.RankedRendering` | django-shop/products/models.py:46-47 | when parent chains are well founded, every category renders. A child renders as its parent's own `str`, then `" > "`, then its name |
| `Categories.CycleHasNoRendering` | django-shop/products/models.py:46-47 | a category whose parent chain leads back to itself cannot be rendered: the recursion never ends |
| `Categories.SelfParentCheckAllowsCycles` | django-shop/products/models.py:41-43 | `cat_no_self_parent` admits two categories that are each other's parent, and neither of them renders |
| `Records.TagsOf` | django-shop/products/models.py:122-124 | a product's tags through ProductTag are exactly the tags of its through rows |
| `Records.UniquePairsGiveDistinctTags` | django-shop/products/models.py:199-201 | under `product_tag_unique`, no tag appears twice in a product's tag list |

The remaining declared constraints are stated as predicates in `Records`:

- `product_price_gte_0` (140) as `PriceNonNegative`.
- `producttag_weight_gte_1` (203) as `WeightsAtLeastOne`.
- `product_slug_ci_unique_active` (147-151) as `ActiveSlugsUniqueIgnoringCase`.
- `product_name_ci_unique_active` (142-146) as `ActiveNamesUniqueIgnoringCase`.
- `cat_no_self_parent` (41-43) as `NoSelfParent`.

## Left out

- Writing to the database: `super().save`, `update_fields`, and the `auto_now`/`auto_now_add` timestamps (`created_at`, `updated_at`, `added_at`). The table is an input that the methods read and never write. In particular the first `save` of a new product does not give it a primary key here: `pk` stays `None` after `Products.Product.Save`.
- `Products.Product.Publish`: on a product that was never saved, Django refuses the `update_fields` save with a ValueError ("Cannot force an update in save() with no primary key"), after the slug, status and `published_at` have been assigned in memory. The model's `Publish` returns normally in that case; the in-memory field changes it states are the ones Python makes before the error.
- The database's enforcement of constraints, and cascade/protect deletion: the ORM's behaviour. Constraints are predicates only.
- The case-insensitive uniqueness constraints of Category (`cat_unique_slug_per_parent_ci`) and Tag (`tag_name_ci_unique`, `tag_slug_ci_unique`): DB-level rules with no behaviour in the app code. Tag's fields are not modelled beyond its key.
- `get_absolute_url` and `reverse`: URL resolution inside Django.
- `Product.__str__`, `Tag.__str__` and `ProductTag.__str__`: they only format fields for display.
- Indexes and `Meta.ordering`: a queryset is taken in whatever order its sequence has.
- `slugify` and `timezone.now`: library calls, modelled as a function parameter and a timestamp parameter.
- The length limits of the fields: `max_length=140` on slug, and `max_digits`/`decimal_places` on price. The loop can build a slug longer than 140 characters; the model does not bound it. Price is an integer number of cents.
- Concurrency: two saves that run the slug loop at the same time can both pick the same slug. The model runs each call alone.
- `Queries.Search`: the `icontains` case folding is ASCII-only (SQLite's `LIKE`). Databases that fold non-ASCII letters are not modelled.
- `Categories.Label`: Python raises RecursionError on a parent cycle and DoesNotExist on a missing parent. The model returns `None` in both cases and does not tell them apart. Python also raises RecursionError on an acyclic chain deeper than the interpreter's recursion limit; the model has no such limit and renders it.
- `Categories.Str`: categories are looked up by key in a table, so an unsaved `Category` instance with a parent, which Python can render, has to be stored before the model can render it.
- Explicit primary key 0: keys are those the database assigns, from 1 up. A row saved with `id=0` is not modelled, so neither is a category whose parent has key 0, which `__str__` (models.py:47) renders as its bare name because `parent_id` is falsy.
- `django-shop/products/admin.py` and `django-shop/products/urls.py`: model registration and route wiring, with no logic of their own.
