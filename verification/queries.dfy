/**
 * The filters of ProductQuerySet. A queryset is the sequence of rows it
 * yields, in order; `filter(...)` keeps the rows that satisfy a condition
 * and does not reorder them.
 */
module Queries {
  import opened Records
  import Text

  /** `filter(...)` with a row condition `keep`. */
  function Where(qs: seq<ProductRecord>, keep: ProductRecord -> bool): (r: seq<ProductRecord>)
    ensures |r| <= |qs|
    ensures forall p :: p in r <==> p in qs && keep(p)
  {
    if qs == [] then []
    else
      assert forall p :: p in qs <==> p == qs[0] || p in qs[1..];
      (if keep(qs[0]) then [qs[0]] else []) + Where(qs[1..], keep)
  }

  /** Filtering a concatenation filters each part in place: the order of rows is kept. */
  lemma {:induction false} WhereAppend(a: seq<ProductRecord>, b: seq<ProductRecord>, keep: ProductRecord -> bool)
    ensures Where(a + b, keep) == Where(a, keep) + Where(b, keep)
    decreases |a|
  {
    if a != [] {
      var head := if keep(a[0]) then [a[0]] else [];
      assert (a + b)[0] == a[0] && (a + b)[1..] == a[1..] + b;
      WhereAppend(a[1..], b, keep);
      calc {
        Where(a + b, keep);
        head + Where(a[1..] + b, keep);
        head + (Where(a[1..], keep) + Where(b, keep));
        (head + Where(a[1..], keep)) + Where(b, keep);
        Where(a, keep) + Where(b, keep);
      }
    } else {
      assert a + b == b;
    }
  }

  /** Filters on conditions that agree on every row are the same filter. */
  lemma {:induction false} WhereCongruent(qs: seq<ProductRecord>, keep: ProductRecord -> bool,
                                          same: ProductRecord -> bool)
    requires forall p :: keep(p) == same(p)
    ensures Where(qs, keep) == Where(qs, same)
    decreases |qs|
  {
    if qs != [] {
      WhereCongruent(qs[1..], keep, same);
    }
  }

  /** Two filters in a row are one filter on the conjunction. */
  lemma {:induction false} WhereWhere(qs: seq<ProductRecord>, first: ProductRecord -> bool,
                                      second: ProductRecord -> bool, both: ProductRecord -> bool)
    requires forall p :: both(p) == (first(p) && second(p))
    ensures Where(Where(qs, first), second) == Where(qs, both)
    decreases |qs|
  {
    if qs != [] {
      WhereWhere(qs[1..], first, second, both);
      var rest := Where(qs[1..], first);
      if first(qs[0]) {
        var s := [qs[0]] + rest;
        assert Where(qs, first) == s;
        assert s[0] == qs[0] && s[1..] == rest;
      } else {
        assert Where(qs, first) == rest;
        assert !both(qs[0]);
      }
    }
  }

  predicate IsActive(p: ProductRecord) {
    p.isActive
  }

  predicate IsPublished(p: ProductRecord) {
    p.status == Status.Published && p.isActive
  }

  predicate HasPublishedStatus(p: ProductRecord) {
    p.status == Status.Published
  }

  /**
   * `name__icontains=q | description__icontains=q`: a row whose name or
   * description holds `q` literally always matches, whatever the case.
   */
  function Matches(p: ProductRecord, q: string): (m: bool)
    ensures Text.Contains(p.name, q) || Text.Contains(p.description, q) ==> m
    ensures Text.Contains(p.name, Text.Lower(q)) || Text.Contains(p.description, Text.Lower(q)) ==> m
  {
    Text.ExactOccurrenceIsFound(p.name, q);
    Text.ExactOccurrenceIsFound(p.description, q);
    Text.ExactOccurrenceIsFound(p.name, Text.Lower(q));
    Text.ExactOccurrenceIsFound(p.description, Text.Lower(q));
    Text.NeedleCaseIgnored(p.name, q);
    Text.NeedleCaseIgnored(p.description, q);
    Text.ContainsIgnoringCase(p.name, q) || Text.ContainsIgnoringCase(p.description, q)
  }

  function MatchesQuery(q: string): ProductRecord -> bool {
    p => Matches(p, q)
  }

  /** `active()`: exactly the active rows. */
  function Active(qs: seq<ProductRecord>): (r: seq<ProductRecord>)
    ensures forall p :: p in r <==> p in qs && p.isActive
  {
    Where(qs, IsActive)
  }

  /** `published()`: exactly the active rows with status published. */
  function Published(qs: seq<ProductRecord>): (r: seq<ProductRecord>)
    ensures forall p :: p in r <==> p in qs && p.status == Status.Published && p.isActive
  {
    Where(qs, IsPublished)
  }

  /**
   * `search(q)`: no query or an empty one leaves the queryset as it is;
   * otherwise exactly the rows whose name or description contains `q`,
   * ignoring case.
   */
  function Search(qs: seq<ProductRecord>, q: Option<string>): (r: seq<ProductRecord>)
    ensures q.None? || q == Some("") ==> r == qs
    ensures q.Some? && q.value != "" ==>
      forall p :: p in r <==> p in qs && (Text.ContainsIgnoringCase(p.name, q.value) ||
                                          Text.ContainsIgnoringCase(p.description, q.value))
  {
    if q.None? || q.value == "" then qs else Where(qs, MatchesQuery(q.value))
  }

  /** `published()` is `active()` narrowed to status published, rows in the same order. */
  lemma PublishedWithinActive(qs: seq<ProductRecord>)
    ensures Published(qs) == Where(Active(qs), HasPublishedStatus)
    ensures forall p :: p in Published(qs) ==> p in Active(qs)
  {
    WhereWhere(qs, IsActive, HasPublishedStatus, IsPublished);
  }

  /** `active().search(q)` and `search(q).active()` yield the same rows in the same order. */
  lemma SearchCommutesWithActive(qs: seq<ProductRecord>, q: Option<string>)
    ensures Search(Active(qs), q) == Active(Search(qs, q))
  {
    if q.Some? && q.value != "" {
      var m := MatchesQuery(q.value);
      var both := (p: ProductRecord) => p.isActive && m(p);
      WhereWhere(qs, IsActive, m, both);
      WhereWhere(qs, m, IsActive, both);
    }
  }

  /** Searching again with the same text changes nothing. */
  lemma SearchIdempotent(qs: seq<ProductRecord>, q: Option<string>)
    ensures Search(Search(qs, q), q) == Search(qs, q)
  {
    if q.Some? && q.value != "" {
      var m := MatchesQuery(q.value);
      WhereWhere(qs, m, m, m);
    }
  }

  /** A row whose name contains the query text exactly is found by the search. */
  lemma SearchFindsExactName(qs: seq<ProductRecord>, q: string, p: ProductRecord)
    requires p in qs && Text.Contains(p.name, q)
    ensures p in Search(qs, Some(q))
  {
    Text.ExactOccurrenceIsFound(p.name, q);
  }

  /** `search` gives the same rows whatever the letter case of the query. */
  lemma SearchIgnoresQueryCase(qs: seq<ProductRecord>, q: string)
    ensures Search(qs, Some(Text.Lower(q))) == Search(qs, Some(q))
  {
    if q != "" {
      forall p ensures MatchesQuery(Text.Lower(q))(p) == MatchesQuery(q)(p) {
        Text.NeedleCaseIgnored(p.name, q);
        Text.NeedleCaseIgnored(p.description, q);
      }
      WhereCongruent(qs, MatchesQuery(Text.Lower(q)), MatchesQuery(q));
    }
  }
}
