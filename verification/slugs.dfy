/**
 * Slug assignment for products (`Product._ensure_slug`): starting from a
 * base derived from the name, try `base`, `base-2`, `base-3`, ... and
 * keep the first candidate that no other active product holds.
 */
module Slugs {
  import opened Records
  import Text
  import Queries

  /** The base used when `slugify(name)` is empty. */
  const Fallback: string := "product"

  /** `slugify(name) or "product"`; `slugify` is Django's and is a parameter here. */
  function BaseSlug(name: string, slugify: string -> string): (base: string)
    ensures base != ""
    ensures slugify(name) != "" ==> base == slugify(name)
    ensures slugify(name) == "" ==> base == Fallback
  {
    if slugify(name) != "" then slugify(name) else Fallback
  }

  /** The n-th candidate, counting from 1: `base`, then `base-2`, `base-3`, ... */
  function Candidate(base: string, n: nat): string {
    if n <= 1 then base else base + "-" + Text.Decimal(n)
  }

  /** Candidates with different positions are different strings. */
  lemma CandidateInjective(base: string, m: nat, n: nat)
    requires 1 <= m && 1 <= n
    requires Candidate(base, m) == Candidate(base, n)
    ensures m == n
  {
    if m >= 2 && n >= 2 {
      var cm, cn := Candidate(base, m), Candidate(base, n);
      assert cm[|base| + 1..] == Text.Decimal(m);
      assert cn[|base| + 1..] == Text.Decimal(n);
      Text.DecimalInjective(m, n);
    }
  }

  /**
   * Row `r` blocks slug `s` for the product with key `pk`: the query
   * `filter(slug=s, is_active=True).exclude(pk=pk)` would return it.
   * Excluding `pk=None` excludes no row.
   */
  predicate Blocks(r: ProductRecord, pk: Option<Id>, s: string) {
    r.isActive && r.slug == s && !(pk.Some? && r.pk == pk)
  }

  /** `filter(slug=s, is_active=True)`. */
  function ActiveWithSlug(s: string): ProductRecord -> bool {
    (r: ProductRecord) => r.slug == s && r.isActive
  }

  /** `exclude(pk=pk)`. */
  function OtherThan(pk: Option<Id>): ProductRecord -> bool {
    (r: ProductRecord) => !(pk.Some? && r.pk == pk)
  }

  /** The loop test: `.exists()` on that query over the product table. */
  predicate Taken(table: seq<ProductRecord>, pk: Option<Id>, s: string) {
    exists r :: r in table && Blocks(r, pk, s)
  }

  /**
   * `Taken` is the ORM query as written: the chained filter and exclude
   * leave some row exactly when some row blocks the slug.
   */
  lemma TakenIsQueryNonEmpty(table: seq<ProductRecord>, pk: Option<Id>, s: string)
    ensures Taken(table, pk, s) <==>
      Queries.Where(Queries.Where(table, ActiveWithSlug(s)), OtherThan(pk)) != []
  {
    var found := Queries.Where(Queries.Where(table, ActiveWithSlug(s)), OtherThan(pk));
    if found != [] {
      assert found[0] in found;
    }
  }

  /** The slugs held by the rows that can block the product with key `pk`. */
  function HeldSlugs(table: seq<ProductRecord>, pk: Option<Id>): (held: set<string>)
    ensures |held| <= |table|
    ensures forall s :: s in held <==> Taken(table, pk, s)
  {
    if table == [] then {}
    else
      var rest := HeldSlugs(table[1..], pk);
      assert forall r :: r in table <==> r == table[0] || r in table[1..];
      if Blocks(table[0], pk, table[0].slug) then rest + {table[0].slug} else rest
  }

  /** The candidates before the n-th one. */
  ghost function Earlier(base: string, n: nat): set<string> {
    if n <= 1 then {} else Earlier(base, n - 1) + {Candidate(base, n - 1)}
  }

  lemma {:induction false} EarlierMembers(base: string, n: nat, m: nat)
    requires 1 <= m
    ensures Candidate(base, m) in Earlier(base, n) <==> m < n
  {
    if n > 1 {
      EarlierMembers(base, n - 1, m);
      if Candidate(base, m) == Candidate(base, n - 1) {
        CandidateInjective(base, m, n - 1);
      }
    }
  }

  lemma {:induction false} EarlierSize(base: string, n: nat)
    requires 1 <= n
    ensures |Earlier(base, n)| == n - 1
  {
    if n > 1 {
      EarlierSize(base, n - 1);
      EarlierMembers(base, n - 1, n - 1);
    }
  }

  lemma SubsetSize<T>(a: set<T>, b: set<T>)
    requires a <= b
    ensures |a| <= |b|
  {
    assert b == a + (b - a);
  }

  /**
   * The n-th candidate is the one the loop settles on: it is free, and
   * every earlier candidate is held by another active product.
   */
  ghost predicate FirstFreeAt(table: seq<ProductRecord>, pk: Option<Id>, base: string, n: nat) {
    && 1 <= n
    && !Taken(table, pk, Candidate(base, n))
    && forall k :: 1 <= k < n ==> Taken(table, pk, Candidate(base, k))
  }

  ghost predicate FirstFree(table: seq<ProductRecord>, pk: Option<Id>, base: string, s: string) {
    exists n :: FirstFreeAt(table, pk, base, n) && s == Candidate(base, n)
  }

  /**
   * The search loop of `_ensure_slug`. It stops within |table| + 1 tries:
   * every candidate it rejects is a distinct slug held by some row.
   */
  method FindFreeSlug(table: seq<ProductRecord>, pk: Option<Id>, base: string) returns (slug: string)
    ensures FirstFree(table, pk, base, slug)
    ensures forall r :: r in table && r.isActive && !(pk.Some? && r.pk == pk) ==> r.slug != slug
    ensures slug == base || exists i :: 2 <= i && slug == base + "-" + Text.Decimal(i)
  {
    slug := base;
    var i := 2;
    while Taken(table, pk, slug)
      invariant 2 <= i <= |table| + 2
      invariant slug == Candidate(base, i - 1)
      invariant forall k :: 1 <= k < i - 1 ==> Taken(table, pk, Candidate(base, k))
      decreases |table| + 2 - i
    {
      TakenPrefixWithinTableSize(table, pk, base, i - 1);
      slug := base + "-" + Text.Decimal(i);
      i := i + 1;
    }
    assert FirstFreeAt(table, pk, base, i - 1);
    if i > 2 {
      assert slug == base + "-" + Text.Decimal(i - 1);
    }
  }

  /** The first free candidate is unique, so the loop's answer is determined by the table. */
  lemma FirstFreeDeterminesSlug(table: seq<ProductRecord>, pk: Option<Id>, base: string, s1: string, s2: string)
    requires FirstFree(table, pk, base, s1) && FirstFree(table, pk, base, s2)
    ensures s1 == s2
  {
  }

  /**
   * The first n candidates are n different slugs; if rows hold all of
   * them, the table has at least n rows.
   */
  lemma TakenPrefixWithinTableSize(table: seq<ProductRecord>, pk: Option<Id>, base: string, n: nat)
    requires forall k :: 1 <= k <= n ==> Taken(table, pk, Candidate(base, k))
    ensures n <= |table|
  {
    TakenPrefixWithinHeld(table, pk, base, n);
  }

  /** n held candidates are n distinct held slugs. */
  lemma TakenPrefixWithinHeld(table: seq<ProductRecord>, pk: Option<Id>, base: string, n: nat)
    requires forall k :: 1 <= k <= n ==> Taken(table, pk, Candidate(base, k))
    ensures n <= |HeldSlugs(table, pk)|
  {
    HeldCoversTaken(table, pk, base, n);
    EarlierSize(base, n + 1);
    SubsetSize(Earlier(base, n + 1), HeldSlugs(table, pk));
  }

  lemma HeldCoversTaken(table: seq<ProductRecord>, pk: Option<Id>, base: string, n: nat)
    requires forall k :: 1 <= k <= n ==> Taken(table, pk, Candidate(base, k))
    ensures Earlier(base, n + 1) <= HeldSlugs(table, pk)
  {
    forall s | s in Earlier(base, n + 1) ensures s in HeldSlugs(table, pk) {
      EarlierElement(base, n + 1, s);
    }
  }

  /**
   * The loop needs at most one try more than there are active rows: each
   * rejected candidate is a distinct slug held by an active row.
   */
  lemma FirstFreeWithinTableSize(table: seq<ProductRecord>, pk: Option<Id>, base: string, n: nat)
    requires FirstFreeAt(table, pk, base, n)
    ensures n <= |Queries.Active(table)| + 1
  {
    TakenPrefixWithinHeld(table, pk, base, n - 1);
    HeldWithinActive(table, pk);
  }

  /** Every held slug is the slug of an active row, and rows hold one slug each. */
  lemma {:induction false} HeldWithinActive(table: seq<ProductRecord>, pk: Option<Id>)
    ensures |HeldSlugs(table, pk)| <= |Queries.Active(table)|
    decreases |table|
  {
    if table != [] {
      HeldWithinActive(table[1..], pk);
      var rest := HeldSlugs(table[1..], pk);
      assert |rest + {table[0].slug}| <= |rest| + 1;
    }
  }

  lemma {:induction false} EarlierElement(base: string, n: nat, s: string)
    requires s in Earlier(base, n)
    ensures exists k :: 1 <= k < n && s == Candidate(base, k)
  {
    if s != Candidate(base, n - 1) {
      EarlierElement(base, n - 1, s);
    }
  }

  /** Exact-match uniqueness of slugs among active rows. */
  predicate ActiveSlugsDistinct(table: seq<ProductRecord>) {
    forall i, j :: 0 <= i < j < |table| && table[i].isActive && table[j].isActive ==>
      table[i].slug != table[j].slug
  }

  /**
   * Storing a new product whose slug the loop found free keeps the active
   * slugs of the table pairwise different.
   */
  lemma StoringFreeSlugKeepsSlugsDistinct(table: seq<ProductRecord>, r: ProductRecord)
    requires ActiveSlugsDistinct(table)
    requires forall row :: row in table ==> row.pk != r.pk
    requires !Taken(table, r.pk, r.slug)
    ensures ActiveSlugsDistinct(table + [r])
  {
    var t := table + [r];
    forall i, j | 0 <= i < j < |t| && t[i].isActive && t[j].isActive
      ensures t[i].slug != t[j].slug
    {
      if j == |table| {
        assert t[i] in table && !Blocks(t[i], r.pk, r.slug);
      }
    }
  }

  /**
   * The loop compares slugs exactly, while the table's declared constraint
   * product_slug_ci_unique_active ignores letter case: a slug the loop
   * finds free can still clash with an active row that differs only in case.
   */
  lemma ExactTestMissesCaseOnlyClash()
    ensures var other := ProductRecord(Some(1), None, "Shoe", "Shoe", "", 0, true, Draft, None);
            var added := ProductRecord(None, None, "shoe", "shoe", "", 0, true, Draft, None);
            && ActiveSlugsUniqueIgnoringCase([other])
            && FirstFree([other], None, "shoe", "shoe")
            && !ActiveSlugsUniqueIgnoringCase([other, added])
  {
    var other := ProductRecord(Some(1), None, "Shoe", "Shoe", "", 0, true, Draft, None);
    var added := ProductRecord(None, None, "shoe", "shoe", "", 0, true, Draft, None);
    assert !Taken([other], None, "shoe") by {
      assert "Shoe"[0] != "shoe"[0];
    }
    assert FirstFreeAt([other], None, "shoe", 1);
    assert Text.Lower("Shoe") == Text.Lower("shoe") by {
      assert Text.LowerChar('S') == 's';
    }
    var t := [other, added];
    assert t[0].isActive && t[1].isActive && Text.Lower(t[0].slug) == Text.Lower(t[1].slug);
  }
}
