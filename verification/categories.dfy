/**
 * `Category.__str__`: a category with a parent renders as
 * "<parent's rendering> > <name>", a root category as its name. The
 * rendering recurses up the parent chain, so it only ends when the chain
 * reaches a root; on a cycle Python keeps recursing until it gives up.
 */
module Categories {
  import opened Records

  const Separator: string := " > "

  /**
   * The rendering of category `id`, where `seen` holds the categories whose
   * rendering is already in progress further down the call stack. None
   * stands for a rendering that fails: the chain returns to a category in
   * progress (Python's recursion never ends) or names a missing parent.
   */
  function Label(cats: map<Id, CategoryRecord>, id: Id, seen: set<Id>): (r: Option<string>)
    ensures r.Some? ==> id in cats
    ensures r.Some? ==> |cats[id].name| <= |r.value| && r.value[|r.value| - |cats[id].name|..] == cats[id].name
    decreases cats.Keys - seen
  {
    if id !in cats || id in seen then None
    else
      match cats[id].parent
      case None => Some(cats[id].name)
      case Some(p) =>
        match Label(cats, p, seen + {id})
        case None => None
        case Some(s) => Some(s + Separator + cats[id].name)
  }

  /**
   * `str(category)` for the category stored under `id`. An unsaved
   * category with a parent renders in Python too; here a category is
   * always looked up in the table, so such an instance is stored first.
   */
  function Str(cats: map<Id, CategoryRecord>, id: Id): (r: Option<string>)
    requires id in cats
    ensures cats[id].parent.None? ==> r == Some(cats[id].name)
  {
    Label(cats, id, {})
  }

  /**
   * The parent chains are well founded: every parent exists and has a
   * smaller rank than its child.
   */
  ghost predicate Ranked(cats: map<Id, CategoryRecord>, rank: map<Id, nat>) {
    && cats.Keys <= rank.Keys
    && forall c {:trigger RankedAt(cats, rank, c)} :: c in cats ==> RankedAt(cats, rank, c)
  }

  ghost predicate RankedAt(cats: map<Id, CategoryRecord>, rank: map<Id, nat>, c: Id)
    requires c in cats
  {
    && c in rank
    && (cats[c].parent.Some? ==>
          var p := cats[c].parent.value;
          p in cats && p in rank && rank[p] < rank[c])
  }

  lemma {:induction false} LabelIgnoresSeen(cats: map<Id, CategoryRecord>, rank: map<Id, nat>, id: Id, seen: set<Id>)
    requires Ranked(cats, rank) && id in cats
    requires forall s :: s in seen && s in rank ==> rank[s] > rank[id]
    ensures Label(cats, id, seen).Some?
    ensures Label(cats, id, seen) == Label(cats, id, {})
    decreases rank[id]
  {
    assert RankedAt(cats, rank, id);
    assert id !in seen;
    match cats[id].parent
    case None =>
    case Some(p) =>
      assert p in cats && p in rank && rank[p] < rank[id];
      LabelIgnoresSeen(cats, rank, p, seen + {id});
      LabelIgnoresSeen(cats, rank, p, {id});
      var rest := Label(cats, p, {}).value;
      assert {} + {id} == {id};
      assert Label(cats, id, seen) == Some(rest + Separator + cats[id].name);
      assert Label(cats, id, {}) == Some(rest + Separator + cats[id].name);
  }

  /**
   * On well-founded chains every category renders, and a child renders as
   * its parent's own rendering, the separator and its name.
   */
  lemma RankedRendering(cats: map<Id, CategoryRecord>, rank: map<Id, nat>, id: Id)
    requires Ranked(cats, rank) && id in cats
    ensures Str(cats, id).Some?
    ensures cats[id].parent.Some? ==>
      && cats[id].parent.value in cats
      && Str(cats, cats[id].parent.value).Some?
      && Str(cats, id) == Some(Str(cats, cats[id].parent.value).value + Separator + cats[id].name)
  {
    LabelIgnoresSeen(cats, rank, id, {});
    if cats[id].parent.Some? {
      assert RankedAt(cats, rank, id);
      var p := cats[id].parent.value;
      LabelIgnoresSeen(cats, rank, p, {id});
      assert {} + {id} == {id};
    }
  }

  /** The category reached from `id` by following `n` parent links. */
  function Follow(cats: map<Id, CategoryRecord>, id: Id, n: nat): Option<Id> {
    if n == 0 then Some(id)
    else
      match Follow(cats, id, n - 1)
      case None => None
      case Some(x) => if x in cats then cats[x].parent else None
  }

  /** The categories reached by fewer than `n` parent links. */
  function Visited(cats: map<Id, CategoryRecord>, id: Id, n: nat): set<Id> {
    if n == 0 then {}
    else
      Visited(cats, id, n - 1) +
        match Follow(cats, id, n - 1) case Some(x) => {x} case None => {}
  }

  lemma {:induction false} VisitedHasStart(cats: map<Id, CategoryRecord>, id: Id, n: nat)
    requires 1 <= n
    ensures id in Visited(cats, id, n)
  {
    if n > 1 {
      VisitedHasStart(cats, id, n - 1);
    }
  }

  lemma {:induction false} FollowStaysNone(cats: map<Id, CategoryRecord>, id: Id, j: nat, m: nat)
    requires j <= m && Follow(cats, id, j).None?
    ensures Follow(cats, id, m).None?
    decreases m - j
  {
    if j < m {
      FollowStaysNone(cats, id, j + 1, m);
    }
  }

  lemma {:induction false} CycleUnwinds(cats: map<Id, CategoryRecord>, id: Id, n: nat, k: nat)
    requires 1 <= n && Follow(cats, id, n) == Some(id)
    requires k <= n && Follow(cats, id, k).Some?
    ensures Label(cats, Follow(cats, id, k).value, Visited(cats, id, k)).None?
    decreases n - k
  {
    var x := Follow(cats, id, k).value;
    if k == n {
      VisitedHasStart(cats, id, n);
    } else if x in cats && x !in Visited(cats, id, k) {
      if cats[x].parent.None? {
        FollowStaysNone(cats, id, k + 1, n);
        assert false;
      } else {
        CycleUnwinds(cats, id, n, k + 1);
      }
    }
  }

  /**
   * A category whose parent chain leads back to itself has no rendering:
   * `__str__` recurses around the cycle without end.
   */
  lemma CycleHasNoRendering(cats: map<Id, CategoryRecord>, id: Id, n: nat)
    requires id in cats
    requires 1 <= n && Follow(cats, id, n) == Some(id)
    ensures Str(cats, id).None?
  {
    CycleUnwinds(cats, id, n, 0);
  }

  /**
   * The declared check cat_no_self_parent rules out cycles of length one
   * only: two categories that are each other's parent pass it, and neither
   * can be rendered.
   */
  lemma SelfParentCheckAllowsCycles()
    ensures var cats := map[1 := CategoryRecord("Shoes", "shoes", Some(2)),
                            2 := CategoryRecord("Boots", "boots", Some(1))];
            NoSelfParent(cats) && Str(cats, 1).None? && Str(cats, 2).None?
  {
    var cats := map[1 := CategoryRecord("Shoes", "shoes", Some(2)),
                    2 := CategoryRecord("Boots", "boots", Some(1))];
    assert Follow(cats, 1, 2) == Some(1);
    assert Follow(cats, 2, 2) == Some(2);
    CycleHasNoRendering(cats, 1, 2);
    CycleHasNoRendering(cats, 2, 2);
  }

  /**
   * Rendering with more categories in progress, when it succeeds, gives
   * the same text as with fewer: `seen` only decides failure.
   */
  lemma {:induction false} LabelMonotone(cats: map<Id, CategoryRecord>, id: Id, small: set<Id>, big: set<Id>)
    requires small <= big && Label(cats, id, big).Some?
    ensures Label(cats, id, small) == Label(cats, id, big)
    decreases cats.Keys - big
  {
    if cats[id].parent.Some? {
      LabelMonotone(cats, cats[id].parent.value, small + {id}, big + {id});
    }
  }

  /**
   * Whatever the rest of the table holds, a category that renders and has
   * a parent renders as its parent's own `str`, the separator and its name.
   */
  lemma RenderedParent(cats: map<Id, CategoryRecord>, id: Id)
    requires id in cats && Str(cats, id).Some? && cats[id].parent.Some?
    ensures var p := cats[id].parent.value;
      && p in cats && Str(cats, p).Some?
      && Str(cats, id) == Some(Str(cats, p).value + Separator + cats[id].name)
  {
    assert {} + {id} == {id};
    LabelMonotone(cats, cats[id].parent.value, {}, {id});
  }

  /** The parent chain from `id` reaches a stored root category after `n` links. */
  ghost predicate ReachesRoot(cats: map<Id, CategoryRecord>, id: Id, n: nat) {
    && Follow(cats, id, n).Some?
    && Follow(cats, id, n).value in cats
    && cats[Follow(cats, id, n).value].parent.None?
  }

  lemma {:induction false} FollowFromParent(cats: map<Id, CategoryRecord>, id: Id, p: Id, k: nat)
    requires id in cats && cats[id].parent == Some(p)
    ensures Follow(cats, id, k + 1) == Follow(cats, p, k)
  {
    if k > 0 {
      FollowFromParent(cats, id, p, k - 1);
    }
  }

  lemma {:induction false} RenderingReachesRoot(cats: map<Id, CategoryRecord>, id: Id, seen: set<Id>)
    requires Label(cats, id, seen).Some?
    ensures exists n :: ReachesRoot(cats, id, n)
    decreases cats.Keys - seen
  {
    if cats[id].parent.None? {
      assert ReachesRoot(cats, id, 0);
    } else {
      var p := cats[id].parent.value;
      RenderingReachesRoot(cats, p, seen + {id});
      var m: nat :| ReachesRoot(cats, p, m);
      FollowFromParent(cats, id, p, m);
      FollowFromParent(cats, id, p, m + 1);
      assert ReachesRoot(cats, id, m + 1);
    }
  }

  /** Once the chain revisits a category, it repeats with that period. */
  lemma {:induction false} FollowRepeats(cats: map<Id, CategoryRecord>, id: Id, i: nat, j: nat, m: nat)
    requires i < j && Follow(cats, id, i) == Follow(cats, id, j) && i <= m
    ensures Follow(cats, id, m) == Follow(cats, id, m + (j - i))
    decreases m
  {
    if m > i {
      FollowRepeats(cats, id, i, j, m - 1);
    }
  }

  lemma {:induction false} FollowFoldsBack(cats: map<Id, CategoryRecord>, id: Id, i: nat, j: nat, m: nat)
    requires i < j && Follow(cats, id, i) == Follow(cats, id, j) && i <= m
    ensures exists r :: i <= r < j && Follow(cats, id, m) == Follow(cats, id, r)
    decreases m
  {
    if m >= j {
      FollowRepeats(cats, id, i, j, m - (j - i));
      FollowFoldsBack(cats, id, i, j, m - (j - i));
    } else {
      assert Follow(cats, id, m) == Follow(cats, id, m);
    }
  }

  /** A chain that reaches a root visits no category twice on the way. */
  lemma RootPathHasNoRepeat(cats: map<Id, CategoryRecord>, id: Id, n: nat, i: nat, j: nat)
    requires ReachesRoot(cats, id, n) && i < j <= n
    ensures Follow(cats, id, i) != Follow(cats, id, j)
  {
    if Follow(cats, id, i) == Follow(cats, id, j) {
      FollowFoldsBack(cats, id, i, j, n + 1);
      var r: nat :| i <= r < j && Follow(cats, id, n + 1) == Follow(cats, id, r);
      if Follow(cats, id, r).None? {
        FollowStaysNone(cats, id, r, n);
      }
      assert false;
    }
  }

  lemma {:induction false} VisitedElement(cats: map<Id, CategoryRecord>, id: Id, k: nat, y: Id)
    requires y in Visited(cats, id, k)
    ensures exists i :: 0 <= i < k && Follow(cats, id, i) == Some(y)
  {
    if Follow(cats, id, k - 1) != Some(y) {
      VisitedElement(cats, id, k - 1, y);
    }
  }

  lemma {:induction false} RootRendersFrom(cats: map<Id, CategoryRecord>, id: Id, n: nat, k: nat)
    requires ReachesRoot(cats, id, n) && k <= n
    ensures Follow(cats, id, k).Some?
    ensures Label(cats, Follow(cats, id, k).value, Visited(cats, id, k)).Some?
    decreases n - k
  {
    if Follow(cats, id, k).None? {
      FollowStaysNone(cats, id, k, n);
    }
    var x := Follow(cats, id, k).value;
    if x in Visited(cats, id, k) {
      VisitedElement(cats, id, k, x);
      var i: nat :| i < k && Follow(cats, id, i) == Some(x);
      RootPathHasNoRepeat(cats, id, n, i, k);
    }
    if k < n {
      RootRendersFrom(cats, id, n, k + 1);
    }
  }

  /**
   * `str` succeeds exactly when the category's own parent chain reaches a
   * root through stored categories. A chain that runs into a cycle anywhere
   * above, or names a missing parent, has no rendering; the rest of the
   * table plays no part.
   */
  lemma RendersIffReachesRoot(cats: map<Id, CategoryRecord>, id: Id)
    requires id in cats
    ensures Str(cats, id).Some? <==> exists n :: ReachesRoot(cats, id, n)
  {
    if Str(cats, id).Some? {
      RenderingReachesRoot(cats, id, {});
    }
    if exists n :: ReachesRoot(cats, id, n) {
      var n: nat :| ReachesRoot(cats, id, n);
      RootRendersFrom(cats, id, n, 0);
    }
  }
}
