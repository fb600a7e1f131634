/**
 * The bookkeeping of `BoundaryConditionManager`: three append-only lists of boundary conditions
 * (essential, natural and generic) and a cache of the sorted, duplicate-free degrees of freedom of all
 * essential conditions, recomputed lazily behind a validity flag. Which degrees of freedom a condition
 * constrains is computed by the finite element library from its space and attributes; here that is a
 * pair of functions the manager is given.
 */
module BoundaryConditions {
  import opened FilterViews

  datatype Option<T> = None | Some(value: T)

  /** Stands for the coefficient object a condition evaluates. */
  type Coefficient = nat
  /** Stands for the finite element space a condition is applied to. */
  type Space = nat

  /**
   * A boundary condition: the mesh attributes it is applied on, its coefficient, the component it sets
   * (`None` for all of them), its space and the tag it carries once `setTag` has been called. A tag is
   * the value of an enumerator.
   */
  datatype BoundaryCondition = BoundaryCondition(
    attrs: set<int>, coefficient: Coefficient, component: Option<int>, space: Space, tag: Option<int>)

  /** `setTag`. */
  function SetTag(bc: BoundaryCondition, tag: int): (r: BoundaryCondition)
    ensures r.tag == Some(tag)
    ensures r.attrs == bc.attrs && r.coefficient == bc.coefficient && r.component == bc.component
    ensures r.space == bc.space
  {
    bc.(tag := Some(tag))
  }

  /** `tagEquals`. */
  predicate TagEquals(bc: BoundaryCondition, tag: int) {
    bc.tag == Some(tag)
  }

  /** The predicate `genericsWithTag` filters with. */
  function HasTag(tag: int): BoundaryCondition -> bool {
    bc => TagEquals(bc, tag)
  }

  predicate StrictlySorted(s: seq<int>) {
    forall i, j :: 0 <= i < j < |s| ==> s[i] < s[j]
  }

  /** `x` put into the strictly increasing list `r`, which it leaves alone when `x` is already there. */
  function Insert(r: seq<int>, x: int): (r': seq<int>)
    requires StrictlySorted(r)
    ensures StrictlySorted(r')
    ensures forall y :: y in r' <==> y in r || y == x
  {
    if r == [] then [x]
    else if x < r[0] then [x] + r
    else if x == r[0] then r
    else
      var t := Insert(r[1..], x);
      assert forall k :: 0 <= k < |t| ==> r[0] < t[k] by {
        forall k | 0 <= k < |t|
          ensures r[0] < t[k]
        {
          assert t[k] in t;
          if t[k] != x {
            var i :| 0 <= i < |r| - 1 && r[1..][i] == t[k];
            assert r[i + 1] == t[k];
          }
        }
      }
      [r[0]] + t
  }

  /** The distinct values of `xs`, in increasing order. */
  function SortedDistinct(xs: seq<int>): (r: seq<int>)
    ensures StrictlySorted(r)
    ensures forall y :: y in r <==> y in xs
  {
    if xs == [] then [] else Insert(SortedDistinct(xs[..|xs| - 1]), xs[|xs| - 1])
  }

  lemma HeadIsMember(s: seq<int>)
    ensures s != [] ==> s[0] in s
  {
  }

  /** A strictly increasing list is fixed by the values it holds. */
  lemma {:induction false} SortedUnique(a: seq<int>, b: seq<int>)
    requires StrictlySorted(a) && StrictlySorted(b)
    requires forall y :: y in a <==> y in b
    ensures a == b
    decreases |a|
  {
    if a != [] && b != [] {
      assert a[0] == b[0] by {
        assert b[0] in b && a[0] in a;
        var i :| 0 <= i < |a| && a[i] == b[0];
        var j :| 0 <= j < |b| && b[j] == a[0];
        assert a[0] <= a[i] && b[0] <= b[j];
      }
      forall y
        ensures y in a[1..] <==> y in b[1..]
      {
        if y in a[1..] {
          var i :| 1 <= i < |a| && a[i] == y;
          assert y in b && y != b[0];
        }
        if y in b[1..] {
          var j :| 1 <= j < |b| && b[j] == y;
          assert y in a && y != a[0];
        }
      }
      SortedUnique(a[1..], b[1..]);
      assert a == [a[0]] + a[1..] && b == [b[0]] + b[1..];
    } else if a != [] || b != [] {
      HeadIsMember(a);
      HeadIsMember(b);
      assert false;
    }
  }

  /** The degree-of-freedom lists of `bcs`, one after another. */
  function Gathered(bcs: seq<BoundaryCondition>, dofsOf: BoundaryCondition -> seq<int>): seq<int> {
    if bcs == [] then [] else Gathered(bcs[..|bcs| - 1], dofsOf) + dofsOf(bcs[|bcs| - 1])
  }

  /** `d` is constrained by one of the conditions `bcs`. */
  ghost predicate ConstrainedBy(bcs: seq<BoundaryCondition>, dofsOf: BoundaryCondition -> seq<int>, d: int) {
    exists k :: 0 <= k < |bcs| && d in dofsOf(bcs[k])
  }

  /** The gathered list holds exactly the degrees of freedom some condition constrains. */
  lemma {:induction false} GatheredMembers(bcs: seq<BoundaryCondition>, dofsOf: BoundaryCondition -> seq<int>, d: int)
    ensures d in Gathered(bcs, dofsOf) <==> ConstrainedBy(bcs, dofsOf, d)
    decreases |bcs|
  {
    if bcs != [] {
      var init := bcs[..|bcs| - 1];
      GatheredMembers(init, dofsOf, d);
      if ConstrainedBy(init, dofsOf, d) {
        var k :| 0 <= k < |init| && d in dofsOf(init[k]);
        assert bcs[k] == init[k];
      }
      if ConstrainedBy(bcs, dofsOf, d) {
        var k :| 0 <= k < |bcs| && d in dofsOf(bcs[k]);
        if k < |init| {
          assert init[k] == bcs[k];
        }
      }
    }
  }

  /** `BoundaryConditionManager`. */
  class BoundaryConditionManager {
    /** `num_attrs_`: the largest boundary attribute of the mesh. */
    const numAttrs: int
    /** The true and the local degrees of freedom a condition constrains. */
    const trueDofsOf: BoundaryCondition -> seq<int>
    const localDofsOf: BoundaryCondition -> seq<int>
    var essBdr: seq<BoundaryCondition>
    var natBdr: seq<BoundaryCondition>
    var otherBdr: seq<BoundaryCondition>
    var allTrueDofs: seq<int>
    var allLocalDofs: seq<int>
    var allDofsValid: bool

    /** While the flag is set, the caches are the sorted, distinct degrees of freedom of the essential conditions. */
    ghost predicate Valid()
      reads this
    {
      allDofsValid ==>
        allTrueDofs == SortedDistinct(Gathered(essBdr, trueDofsOf)) &&
        allLocalDofs == SortedDistinct(Gathered(essBdr, localDofsOf))
    }

    /** The constructor: no conditions and an invalid cache. */
    constructor (numAttrs: int, trueDofsOf: BoundaryCondition -> seq<int>, localDofsOf: BoundaryCondition -> seq<int>)
      ensures Valid() && !allDofsValid
      ensures essBdr == [] && natBdr == [] && otherBdr == []
      ensures this.numAttrs == numAttrs && this.trueDofsOf == trueDofsOf && this.localDofsOf == localDofsOf
    {
      this.numAttrs := numAttrs;
      this.trueDofsOf := trueDofsOf;
      this.localDofsOf := localDofsOf;
      essBdr, natBdr, otherBdr := [], [], [];
      allTrueDofs, allLocalDofs := [], [];
      allDofsValid := false;
    }

    /**
     * `addGeneric`: appends one condition built from the arguments, tags it and invalidates the cache.
     * The essential and natural conditions stay as they were.
     */
    method AddGeneric(attrs: set<int>, coefficient: Coefficient, tag: int, space: Space, component: Option<int>)
      requires Valid()
      modifies this
      ensures Valid() && !allDofsValid
      ensures otherBdr == old(otherBdr) + [BoundaryCondition(attrs, coefficient, component, space, Some(tag))]
      ensures TagEquals(otherBdr[|otherBdr| - 1], tag)
      ensures essBdr == old(essBdr) && natBdr == old(natBdr)
      ensures allTrueDofs == old(allTrueDofs) && allLocalDofs == old(allLocalDofs)
    {
      otherBdr := otherBdr + [BoundaryCondition(attrs, coefficient, component, space, None)];
      otherBdr := otherBdr[|otherBdr| - 1 := SetTag(otherBdr[|otherBdr| - 1], tag)];
      allDofsValid := false;
    }

    /**
     * `updateAllDofs`: refills both caches from the essential conditions and sets the flag. Its body is
     * not part of this model; it is given here by its documented result.
     */
    method UpdateAllDofs()
      modifies this
      ensures Valid() && allDofsValid
      ensures essBdr == old(essBdr) && natBdr == old(natBdr) && otherBdr == old(otherBdr)
    {
      allTrueDofs := SortedDistinct(Gathered(essBdr, trueDofsOf));
      allLocalDofs := SortedDistinct(Gathered(essBdr, localDofsOf));
      allDofsValid := true;
    }

    /**
     * `allEssentialTrueDofs`: recomputes the cache only when it is invalid, then returns the true
     * degrees of freedom of all essential conditions, sorted and without duplicates.
     */
    method AllEssentialTrueDofs() returns (dofs: seq<int>)
      requires Valid()
      modifies this
      ensures Valid() && allDofsValid && dofs == allTrueDofs
      ensures StrictlySorted(dofs) && forall d :: d in dofs <==> ConstrainedBy(essBdr, trueDofsOf, d)
      ensures essBdr == old(essBdr) && natBdr == old(natBdr) && otherBdr == old(otherBdr)
      ensures old(allDofsValid) ==> allTrueDofs == old(allTrueDofs) && allLocalDofs == old(allLocalDofs)
    {
      if !allDofsValid {
        UpdateAllDofs();
      }
      dofs := allTrueDofs;
      forall d
        ensures d in dofs <==> ConstrainedBy(essBdr, trueDofsOf, d)
      {
        GatheredMembers(essBdr, trueDofsOf, d);
      }
    }

    /** `allEssentialLocalDofs`: the same for the local degrees of freedom. */
    method AllEssentialLocalDofs() returns (dofs: seq<int>)
      requires Valid()
      modifies this
      ensures Valid() && allDofsValid && dofs == allLocalDofs
      ensures StrictlySorted(dofs) && forall d :: d in dofs <==> ConstrainedBy(essBdr, localDofsOf, d)
      ensures essBdr == old(essBdr) && natBdr == old(natBdr) && otherBdr == old(otherBdr)
      ensures old(allDofsValid) ==> allTrueDofs == old(allTrueDofs) && allLocalDofs == old(allLocalDofs)
    {
      if !allDofsValid {
        UpdateAllDofs();
      }
      dofs := allLocalDofs;
      forall d
        ensures d in dofs <==> ConstrainedBy(essBdr, localDofsOf, d)
      {
        GatheredMembers(essBdr, localDofsOf, d);
      }
    }

    /** `genericsWithTag`: a view over all generic conditions that keeps those carrying `tag`. */
    method GenericsWithTag(tag: int) returns (view: FilterView<BoundaryCondition>)
      ensures fresh(view) && view.Valid()
      ensures view.elems == otherBdr && view.first == 0 && view.endPos == |otherBdr| && view.pred == HasTag(tag)
    {
      view := new FilterView(otherBdr, 0, |otherBdr|, HasTag(tag));
    }

    /**
     * A loop over `genericsWithTag(tag)` meets exactly the generic conditions that carry `tag`, in the
     * order they were added.
     */
    method VisitGenericsWithTag(tag: int) returns (bcs: seq<BoundaryCondition>)
      ensures bcs == Filtered(otherBdr, HasTag(tag), 0, |otherBdr|)
      ensures forall bc :: bc in bcs <==> bc in otherBdr && TagEquals(bc, tag)
    {
      var view := GenericsWithTag(tag);
      bcs := Collect(view);
      forall bc
        ensures bc in bcs <==> bc in otherBdr && TagEquals(bc, tag)
      {
        FilteredMembers(otherBdr, HasTag(tag), 0, |otherBdr|, bc);
      }
    }
  }
}
