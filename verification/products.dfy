/**
 * A Product instance in memory: the fields that `_ensure_slug`, `save`
 * and `publish` update in place. The product table those methods consult
 * is passed in as a sequence of rows; writing the instance back to the
 * database (`super().save`) belongs to the ORM and is not modelled.
 */
module Products {
  import opened Records
  import Slugs
  import Lifecycle

  /**
   * What `_ensure_slug` does to the slug field: a product that already has
   * a slug, or has no name, keeps its slug; otherwise the slug becomes the
   * first candidate built from the name that no other active row holds.
   * A named product then has a slug, and a fresh one is free.
   */
  ghost predicate SlugAssigned(table: seq<ProductRecord>, pk: Option<Id>, name: string,
                               slugify: string -> string, before: string, after: string)
    ensures SlugAssigned(table, pk, name, slugify, before, after) && name != "" ==> after != ""
    ensures SlugAssigned(table, pk, name, slugify, before, after) && before == "" && name != "" ==>
      !Slugs.Taken(table, pk, after)
  {
    if before != "" || name == "" then after == before
    else Slugs.FirstFree(table, pk, Slugs.BaseSlug(name, slugify), after)
  }

  class Product {
    var pk: Option<Id>
    var category: Option<Id>
    var name: string
    var slug: string
    var description: string
    var priceCents: int
    var isActive: bool
    var status: Status
    var publishedAt: Option<Timestamp>

    /** The field values as a row. */
    function Record(): ProductRecord
      reads this
    {
      ProductRecord(pk, category, name, slug, description, priceCents, isActive, status, publishedAt)
    }

    /** The publication part of the fields. */
    function State(): Lifecycle.PubState
      reads this
    {
      Lifecycle.PubState(status, publishedAt)
    }

    /** `Product(name=..., category=...)`: an unsaved product with the declared defaults. */
    constructor (name: string, category: Option<Id>)
      ensures Record() == ProductRecord(None, category, name, "", "", 0, true, Draft, None)
      ensures PriceNonNegative(Record()) && Lifecycle.Consistent(State())
    {
      this.pk := None;
      this.category := category;
      this.name := name;
      this.slug := "";
      this.description := "";
      this.priceCents := 0;
      this.isActive := true;
      this.status := Draft;
      this.publishedAt := None;
    }

    /** An instance holding the values of a given row, as the ORM loads it. */
    constructor Load(r: ProductRecord)
      ensures Record() == r
    {
      this.pk := r.pk;
      this.category := r.category;
      this.name := r.name;
      this.slug := r.slug;
      this.description := r.description;
      this.priceCents := r.priceCents;
      this.isActive := r.isActive;
      this.status := r.status;
      this.publishedAt := r.publishedAt;
    }

    /** `_ensure_slug`: only the slug field may change. */
    method EnsureSlug(table: seq<ProductRecord>, slugify: string -> string)
      modifies this`slug
      ensures SlugAssigned(table, pk, name, slugify, old(slug), slug)
      ensures slug != "" || name == ""
    {
      if slug != "" || name == "" {
        return;
      }
      var base := Slugs.BaseSlug(name, slugify);
      slug := Slugs.FindFreeSlug(table, pk, base);
    }

    /**
     * `save`, up to the call into the ORM: assign a slug, then give a
     * published product without a timestamp the current time.
     */
    method Save(table: seq<ProductRecord>, slugify: string -> string, now: Timestamp)
      modifies this`slug, this`publishedAt
      ensures SlugAssigned(table, pk, name, slugify, old(slug), slug)
      ensures State() == Lifecycle.Backfill(old(State()), now)
      ensures Lifecycle.Consistent(State())
    {
      EnsureSlug(table, slugify);
      if status == Published && publishedAt.None? {
        publishedAt := Some(now);
      }
    }

    /**
     * `publish`: a product that is not published becomes published and is
     * saved; a published product is left untouched, slug included.
     */
    method Publish(table: seq<ProductRecord>, slugify: string -> string, now: Timestamp)
      modifies this`status, this`publishedAt, this`slug
      ensures State() == Lifecycle.Publish(old(State()), now)
      ensures old(status) == Published ==> slug == old(slug)
      ensures old(status) != Published ==> SlugAssigned(table, pk, name, slugify, old(slug), slug)
      ensures old(status) != Published ==> Lifecycle.Consistent(State())
    {
      if status != Published {
        status := Published;
        publishedAt := if publishedAt.Some? then publishedAt else Some(now);
        Save(table, slugify, now);
      }
    }
  }

  /** A new product saved as a draft and then published: the save picks the slug, `publish` the timestamp. */
  method SaveThenPublish(table: seq<ProductRecord>, slugify: string -> string, name: string,
                         saved: Timestamp, published: Timestamp) returns (p: Product)
    requires name != ""
    ensures fresh(p)
    ensures p.slug != "" && Slugs.FirstFree(table, None, Slugs.BaseSlug(name, slugify), p.slug)
    ensures p.status == Published && p.publishedAt == Some(published)
  {
    p := new Product(name, None);
    p.Save(table, slugify, saved);
    assert p.publishedAt.None?;
    p.Publish(table, slugify, published);
  }
}
