/**
 * The rows of the products app: Product, Category and the ProductTag
 * through table, and the row constraints their Meta classes declare.
 * The ORM and the database that enforce those constraints are not part
 * of this model; the constraints are stated as predicates on tables.
 */
module Records {
  import Text

  datatype Option<+T> = None | Some(value: T)

  /** Primary keys as the database assigns them: AutoField counts from 1, so every such key is truthy. */
  type Id = i: int | 1 <= i witness 1

  /** A DateTimeField value, as a point on an integer time line. */
  type Timestamp = int

  /** ProductStatus: the stored values are "draft", "published", "archived". */
  datatype Status = Draft | Published | Archived

  /**
   * One Product row. `pk` is None while the product has not been saved;
   * the price is a Decimal with two places, kept here in cents.
   */
  datatype ProductRecord = ProductRecord(
    pk: Option<Id>,
    category: Option<Id>,
    name: string,
    slug: string,
    description: string,
    priceCents: int,
    isActive: bool,
    status: Status,
    publishedAt: Option<Timestamp>)

  /** One Category row; `parent` is the nullable self foreign key. */
  datatype CategoryRecord = CategoryRecord(name: string, slug: string, parent: Option<Id>)

  /** One row of the ProductTag through table. */
  datatype ProductTagRecord = ProductTagRecord(product: Id, tag: Id, weight: int)

  /** CheckConstraint product_price_gte_0. */
  predicate PriceNonNegative(p: ProductRecord) {
    p.priceCents >= 0
  }

  /**
   * UniqueConstraint product_slug_ci_unique_active: active rows have slugs
   * that differ even when letter case is ignored.
   */
  predicate ActiveSlugsUniqueIgnoringCase(table: seq<ProductRecord>) {
    forall i, j :: 0 <= i < j < |table| && table[i].isActive && table[j].isActive ==>
      Text.Lower(table[i].slug) != Text.Lower(table[j].slug)
  }

  /** UniqueConstraint product_name_ci_unique_active, the same rule for names. */
  predicate ActiveNamesUniqueIgnoringCase(table: seq<ProductRecord>) {
    forall i, j :: 0 <= i < j < |table| && table[i].isActive && table[j].isActive ==>
      Text.Lower(table[i].name) != Text.Lower(table[j].name)
  }

  /** CheckConstraint cat_no_self_parent, over the whole category table. */
  predicate NoSelfParent(cats: map<Id, CategoryRecord>) {
    forall id :: id in cats ==> cats[id].parent != Some(id)
  }

  /** CheckConstraint producttag_weight_gte_1. */
  predicate WeightsAtLeastOne(rows: seq<ProductTagRecord>) {
    forall i :: 0 <= i < |rows| ==> rows[i].weight >= 1
  }

  /** UniqueConstraint product_tag_unique on (product, tag). */
  predicate UniqueProductTags(rows: seq<ProductTagRecord>) {
    forall i, j :: 0 <= i < j < |rows| ==>
      rows[i].product != rows[j].product || rows[i].tag != rows[j].tag
  }

  /** Every value occurs at most once. */
  predicate Distinct<T(==)>(s: seq<T>) {
    forall i, j :: 0 <= i < j < |s| ==> s[i] != s[j]
  }

  /**
   * The tags of a product as the many-to-many manager reads them through
   * ProductTag: one entry per through row of that product, in an order the model does not fix.
   */
  function TagsOf(rows: seq<ProductTagRecord>, product: Id): (tags: seq<Id>)
    ensures |tags| <= |rows|
    ensures forall t :: t in tags <==> exists r :: r in rows && r.product == product && r.tag == t
  {
    if rows == [] then []
    else
      var rest := TagsOf(rows[1..], product);
      assert forall r :: r in rows <==> r == rows[0] || r in rows[1..];
      if rows[0].product == product then [rows[0].tag] + rest else rest
  }

  /**
   * The unique (product, tag) constraint is what keeps a product's tag
   * list free of repeats.
   */
  lemma {:induction false} UniquePairsGiveDistinctTags(rows: seq<ProductTagRecord>, product: Id)
    requires UniqueProductTags(rows)
    ensures Distinct(TagsOf(rows, product))
  {
    if rows != [] {
      var rest := rows[1..];
      assert UniqueProductTags(rest) by {
        forall i, j | 0 <= i < j < |rest|
          ensures rest[i].product != rest[j].product || rest[i].tag != rest[j].tag
        {
          assert rest[i] == rows[i + 1] && rest[j] == rows[j + 1];
        }
      }
      UniquePairsGiveDistinctTags(rest, product);
      if rows[0].product == product {
        forall r | r in rest && r.product == product
          ensures r.tag != rows[0].tag
        {
          var k :| 0 <= k < |rest| && rest[k] == r;
          assert rows[k + 1] == r;
        }
        assert rows[0].tag !in TagsOf(rest, product);
      }
    }
  }
}
