/**
 The van Emde Boas set of abc.java (class VEBTree), as an immutable recursive
 value. A node over the universe [0, size) keeps its least and greatest
 element in `min` and `max` (-1 when the node is empty, exactly as the source
 does); a node with size > 2 also has a `summary` tree and `CeilSqrt(size)`
 lazily created `clusters`, each over the universe [0, CeilSqrt(size)).
 An element x of a node that is not a leaf lives in cluster High(x) as Low(x).
 */
module VebTree {

  import opened Options
  import opened IntSqrt

  /** The "no element" sentinel the source stores in min and max. */
  const NIL: int := -1

  datatype VEB = VEB(size: nat, min: int, max: int, summary: Option<VEB>, clusters: seq<Option<VEB>>)

  // ---------------------------------------------------------------------------
  // Abstraction: the set a tree stands for

  /** Every element the node stores: its min and max, and whatever its
      clusters store, each shifted back to the node's own universe. */
  ghost function Elems(t: VEB): set<int>
    decreases t, 1
  {
    (if t.min == NIL then {} else {t.min, t.max}) + ClusterElems(t)
  }

  /** The elements stored below a node: y in cluster i stands for i * s + y. */
  ghost function ClusterElems(t: VEB): set<int>
    decreases t, 0
  {
    var s := CeilSqrt(t.size);
    set i, y | 0 <= i < |t.clusters| && t.clusters[i].Some? && y in Elems(t.clusters[i].value) :: i * s + y
  }

  /** Elements of a possibly absent (null) cluster. */
  ghost function OptElems(o: Option<VEB>): set<int>
  {
    if o.None? then {} else Elems(o.value)
  }

  /** A cluster slot that holds a created, non-empty cluster. */
  predicate NonEmpty(o: Option<VEB>)
  {
    o.Some? && o.value.min != NIL
  }

  // ---------------------------------------------------------------------------
  // Representation invariant

  /** min and max are the least and greatest element (both NIL exactly when
      the set is empty), every element lies in the universe, and a node that
      is not a leaf has a well-formed summary and clusters in which the max
      (when it differs from the min) is stored. */
  ghost predicate Valid(t: VEB)
    decreases t, 1
  {
    && (t.min == NIL <==> t.max == NIL)
    && (t.min == NIL ==> Elems(t) == {})
    && (forall y | y in Elems(t) :: 0 <= y < t.size && t.min <= y <= t.max)
    && (if t.size <= 2 then t.summary.None? && t.clusters == []
        else (t.max == t.min || t.max in ClusterElems(t)) && WellFormedBelow(t))
  }

  /** The summary and every created cluster have universe CeilSqrt(size) and
      are valid, and the summary holds exactly the indices of the non-empty
      clusters. */
  ghost predicate WellFormedBelow(t: VEB)
    decreases t, 0
  {
    var s := CeilSqrt(t.size);
    && t.summary.Some? && t.summary.value.size == s && Valid(t.summary.value)
    && |t.clusters| == s
    && (forall i | 0 <= i < s :: t.clusters[i].Some? ==> t.clusters[i].value.size == s && Valid(t.clusters[i].value))
    && (forall i | 0 <= i < s :: i in Elems(t.summary.value) <==> NonEmpty(t.clusters[i]))
  }

  // ---------------------------------------------------------------------------
  // Operations

  /** The constructor VEBTree(size): an empty node whose summary is built
      eagerly and whose clusters are all absent. */
  function Empty(size: nat): (r: VEB)
    ensures Valid(r) && Elems(r) == {}
    ensures r.size == size && r.min == NIL
    decreases size
  {
    if size <= 2 then VEB(size, NIL, NIL, None, [])
    else
      var s := CeilSqrt(size);
      CeilSqrtBetween(size);
      var sm := Empty(s);
      EmptyNode(size, sm);
      VEB(size, NIL, NIL, Some(sm), seq(s, _ => None))
  }

  /** A non-leaf node with an empty summary and no clusters is valid and empty. */
  lemma EmptyNode(size: nat, sm: VEB)
    requires size > 2 && sm.size == CeilSqrt(size) && Valid(sm) && Elems(sm) == {}
    ensures var r := VEB(size, NIL, NIL, Some(sm), seq(CeilSqrt(size), _ => None));
      Valid(r) && Elems(r) == {}
  {
    var s := CeilSqrt(size);
    var r := VEB(size, NIL, NIL, Some(sm), seq(s, _ => None));
    assert forall i | 0 <= i < s :: r.clusters[i] == None;
    assert ClusterElems(r) == {} by {
      forall z | z in ClusterElems(r)
        ensures false
      {
        var i, y := BelowWitness(r, z);
      }
    }
    assert WellFormedBelow(r);
  }

  /** high(x): the cluster an element of a non-leaf node belongs to. */
  function High(size: nat, x: int): (h: int)
    requires size > 2 && 0 <= x < size
    ensures 0 <= h < CeilSqrt(size)
  {
    CeilSqrtBetween(size);
    QuotientBelow(x, CeilSqrt(size));
    x / CeilSqrt(size)
  }

  /** low(x): the position of x inside its cluster. */
  function Low(size: nat, x: int): (l: int)
    requires size > 2 && 0 <= x < size
    ensures 0 <= l < CeilSqrt(size)
    ensures x == High(size, x) * CeilSqrt(size) + l
  {
    CeilSqrtBetween(size);
    x % CeilSqrt(size)
  }

  /** contains(x): x is the node's min or max, or is stored in cluster High(x). */
  function Contains(t: VEB, x: int): (b: bool)
    requires Valid(t) && 0 <= x < t.size
    ensures b <==> x in Elems(t)
    decreases t
  {
    if x == t.min || x == t.max then true
    else if t.size <= 2 then false
    else
      var h := High(t.size, x);
      ClusterMember(t, x);
      if t.clusters[h].None? then false
      else Contains(t.clusters[h].value, Low(t.size, x))
  }

  /** insert(x): an empty node takes x as min and max; otherwise the smaller of
      x and min stays as min, the other is pushed into the clusters (for a
      non-leaf node), and max is raised last. */
  function Insert(t: VEB, x: int): (r: VEB)
    requires Valid(t) && 0 <= x < t.size
    ensures r.size == t.size
    decreases t, 1
  {
    if t.min == NIL then t.(min := x, max := x)
    else
      var lo := if x < t.min then x else t.min;
      var pushed := if x < t.min then t.min else x;
      var t1 := if t.size > 2 then PushDown(t, pushed) else t;
      t1.(min := lo, max := if pushed > t.max then pushed else t.max)
  }

  /** The cluster part of insert for a non-leaf node: create the cluster if it
      is absent; an empty cluster has its index recorded in the summary and
      takes Low(y) as its min and max directly; otherwise Low(y) is inserted
      recursively. The node's own min and max are left alone. */
  function PushDown(t: VEB, y: int): (r: VEB)
    requires Valid(t) && t.size > 2 && 0 <= y < t.size
    ensures r.size == t.size && r.min == t.min && r.max == t.max
    decreases t, 0
  {
    assert WellFormedBelow(t);
    var h := High(t.size, y);
    var l := Low(t.size, y);
    if t.clusters[h].Some? && t.clusters[h].value.min != NIL then
      t.(clusters := t.clusters[h := Some(Insert(t.clusters[h].value, l))])
    else
      var c := if t.clusters[h].Some? then t.clusters[h].value else Empty(CeilSqrt(t.size));
      t.(summary := Some(Insert(t.summary.value, h)),
         clusters := t.clusters[h := Some(c.(min := l, max := l))])
  }

  // ---------------------------------------------------------------------------
  // Lemmas about the abstraction

  /** Only the universe size and the clusters determine the elements below a node. */
  lemma ClusterElemsFromClusters(t: VEB, r: VEB)
    requires r.size == t.size && r.clusters == t.clusters
    ensures ClusterElems(r) == ClusterElems(t)
  {
  }

  /** A quotient by s stays below s when the dividend is below s * s. */
  lemma QuotientBelow(x: int, s: int)
    requires 0 < s && 0 <= x < s * s
    ensures 0 <= x / s < s
  {
    var q := x / s;
    if q >= s {
      MulLeft(s, q, s);
    }
  }

  lemma MulLeft(a: int, b: int, s: int)
    requires 0 <= s && a <= b
    ensures a * s <= b * s
  {
    assert b * s - a * s == (b - a) * s;
  }

  /** Dividing i * s + y by s recovers i and y when 0 <= y < s. */
  lemma SplitUnique(s: int, i: int, y: int)
    requires 0 <= y < s
    ensures (i * s + y) / s == i && (i * s + y) % s == y
  {
    var x := i * s + y;
    var q, m := x / s, x % s;
    assert x == q * s + m;
    assert (i - q) * s == m - y by {
      assert (i - q) * s == i * s - q * s;
    }
    if i > q {
      MulLeft(1, i - q, s);
    } else if i < q {
      MulLeft(1, q - i, s);
    }
  }

  /** Membership below a valid non-leaf node is decided by cluster High(x) alone. */
  lemma ClusterMember(t: VEB, x: int)
    requires t.size > 2 && WellFormedBelow(t) && 0 <= x < t.size
    ensures x in ClusterElems(t) <==>
      t.clusters[High(t.size, x)].Some? && Low(t.size, x) in Elems(t.clusters[High(t.size, x)].value)
  {
    var h, l := High(t.size, x), Low(t.size, x);
    if x in ClusterElems(t) {
      var i, y := BelowWitness(t, x);
      ClusterBound(t, i, y);
      Decompose(t.size, x, i, y);
    }
    if t.clusters[h].Some? && l in Elems(t.clusters[h].value) {
      BelowMember(t, h, l);
    }
  }

  /** An element of a cluster of a well-formed node lies below the cluster size. */
  lemma ClusterBound(t: VEB, i: int, y: int)
    requires t.size > 2 && WellFormedBelow(t)
    requires 0 <= i < |t.clusters| && t.clusters[i].Some? && y in Elems(t.clusters[i].value)
    ensures 0 <= y < CeilSqrt(t.size)
  {
    assert Valid(t.clusters[i].value);
  }

  /** The only way to write x as i * s + y with 0 <= y < s is High(x), Low(x). */
  lemma Decompose(size: nat, x: int, i: int, y: int)
    requires size > 2 && 0 <= x < size
    requires 0 <= y < CeilSqrt(size) && x == i * CeilSqrt(size) + y
    ensures i == High(size, x) && y == Low(size, x)
  {
    SplitUnique(CeilSqrt(size), i, y);
  }

  /** Replacing cluster h by one that holds one more element, l, adds exactly
      h * s + l below the node. */
  lemma ClusterElemsUpdate(t: VEB, r: VEB, h: int, c: VEB, l: int, y: int)
    requires r.size == t.size && 0 <= h < |t.clusters|
    requires r.clusters == t.clusters[h := Some(c)]
    requires Elems(c) == OptElems(t.clusters[h]) + {l}
    requires y == h * CeilSqrt(t.size) + l
    ensures ClusterElems(r) == ClusterElems(t) + {y}
  {
    UpdateShrinksNothing(t, r, h, c, l);
    UpdateAddsOnlyOne(t, r, h, c, l);
  }

  lemma UpdateShrinksNothing(t: VEB, r: VEB, h: int, c: VEB, l: int)
    requires r.size == t.size && 0 <= h < |t.clusters|
    requires r.clusters == t.clusters[h := Some(c)]
    requires Elems(c) == OptElems(t.clusters[h]) + {l}
    ensures ClusterElems(t) + {h * CeilSqrt(t.size) + l} <= ClusterElems(r)
  {
    assert l in Elems(r.clusters[h].value);
    BelowMember(r, h, l);
    KeptBelow(t, r, h, c, l);
  }

  lemma KeptBelow(t: VEB, r: VEB, h: int, c: VEB, l: int)
    requires r.size == t.size && 0 <= h < |t.clusters|
    requires r.clusters == t.clusters[h := Some(c)]
    requires OptElems(t.clusters[h]) <= Elems(c)
    ensures ClusterElems(t) <= ClusterElems(r)
  {
    forall z | z in ClusterElems(t)
      ensures z in ClusterElems(r)
    {
      var i, y := BelowWitness(t, z);
      assert y in Elems(r.clusters[i].value);
      BelowMember(r, i, y);
    }
  }

  lemma BelowWitness(t: VEB, z: int) returns (i: int, y: int)
    requires z in ClusterElems(t)
    ensures 0 <= i < |t.clusters| && t.clusters[i].Some? && y in Elems(t.clusters[i].value)
    ensures z == i * CeilSqrt(t.size) + y
  {
    i, y :| 0 <= i < |t.clusters| && t.clusters[i].Some? && y in Elems(t.clusters[i].value) && z == i * CeilSqrt(t.size) + y;
  }

  lemma BelowMember(t: VEB, i: int, y: int)
    requires 0 <= i < |t.clusters| && t.clusters[i].Some? && y in Elems(t.clusters[i].value)
    ensures i * CeilSqrt(t.size) + y in ClusterElems(t)
  {
  }

  lemma UpdateAddsOnlyOne(t: VEB, r: VEB, h: int, c: VEB, l: int)
    requires r.size == t.size && 0 <= h < |t.clusters|
    requires r.clusters == t.clusters[h := Some(c)]
    requires Elems(c) == OptElems(t.clusters[h]) + {l}
    ensures ClusterElems(r) <= ClusterElems(t) + {h * CeilSqrt(t.size) + l}
  {
    var s := CeilSqrt(t.size);
    forall z | z in ClusterElems(r)
      ensures z in ClusterElems(t) || z == h * s + l
    {
      var i, y := BelowWitness(r, z);
      assert z == i * s + y;
      if i == h && y != l {
        assert y in Elems(t.clusters[h].value);
        BelowMember(t, i, y);
        assert z in ClusterElems(t);
      } else if i != h {
        assert r.clusters[i] == t.clusters[i];
        BelowMember(t, i, y);
        assert z in ClusterElems(t);
      }
    }
  }

  /** A valid empty node that takes l as its min and max directly (the
      empty-cluster fast path) is valid and holds exactly l. */
  lemma FillEmpty(c: VEB, l: int)
    requires Valid(c) && c.min == NIL && 0 <= l < c.size
    ensures Valid(c.(min := l, max := l))
    ensures Elems(c.(min := l, max := l)) == {l}
  {
    var c' := c.(min := l, max := l);
    ClusterElemsFromClusters(c, c');
  }

  /** insert keeps the tree valid and adds exactly x to the set it stands for. */
  lemma {:induction false} InsertCorrect(t: VEB, x: int)
    requires Valid(t) && 0 <= x < t.size
    ensures Valid(Insert(t, x))
    ensures Elems(Insert(t, x)) == Elems(t) + {x}
    decreases t, 2
  {
    if t.min == NIL {
      InsertIntoEmpty(t, x);
    } else if t.size <= 2 {
      InsertIntoLeaf(t, x);
    } else {
      var pushed := if x < t.min then t.min else x;
      PushDownCorrect(t, pushed);
      InsertIntoNode(t, x);
    }
  }

  lemma InsertIntoEmpty(t: VEB, x: int)
    requires Valid(t) && 0 <= x < t.size && t.min == NIL
    ensures Valid(Insert(t, x))
    ensures Elems(Insert(t, x)) == Elems(t) + {x}
  {
    var r := Insert(t, x);
    ClusterElemsFromClusters(t, r);
    if t.size > 2 {
      assert WellFormedBelow(t);
      assert WellFormedBelow(r);
    }
  }

  lemma InsertIntoLeaf(t: VEB, x: int)
    requires Valid(t) && 0 <= x < t.size && t.min != NIL && t.size <= 2
    ensures Valid(Insert(t, x))
    ensures Elems(Insert(t, x)) == Elems(t) + {x}
  {
    var r := Insert(t, x);
    ClusterElemsFromClusters(t, r);
    NoClusters(t);
    assert Elems(t) == {t.min, t.max};
    assert Elems(r) == {r.min, r.max};
  }

  /** A node without clusters stores nothing below itself. */
  lemma NoClusters(t: VEB)
    requires t.clusters == []
    ensures ClusterElems(t) == {}
  {
  }

  /** The non-leaf step of insert, given what the cluster part achieves. */
  lemma InsertIntoNode(t: VEB, x: int)
    requires Valid(t) && 0 <= x < t.size && t.min != NIL && t.size > 2
    requires var pushed := if x < t.min then t.min else x;
      && WellFormedBelow(PushDown(t, pushed))
      && ClusterElems(PushDown(t, pushed)) == ClusterElems(t) + {pushed}
    ensures Valid(Insert(t, x))
    ensures Elems(Insert(t, x)) == Elems(t) + {x}
  {
    var pushed := if x < t.min then t.min else x;
    var lo := if x < t.min then x else t.min;
    assert t.min in Elems(t);
    var t1 := PushDown(t, pushed);
    NodeStep(t, x, t1, lo, pushed);
    InsertNodeShape(t, x);
  }

  /** Insert on a non-empty non-leaf node: the larger of x and min goes below,
      the smaller becomes min, and max grows to cover the pushed element. */
  lemma InsertNodeShape(t: VEB, x: int)
    requires Valid(t) && 0 <= x < t.size && t.min != NIL && t.size > 2
    ensures t.min < t.size
    ensures var pushed := if x < t.min then t.min else x;
      Insert(t, x) == PushDown(t, pushed).(min := if x < t.min then x else t.min,
                                           max := if pushed > t.max then pushed else t.max)
  {
    assert t.min in Elems(t);
  }

  /** Re-setting min and max over a node whose clusters received `pushed`. */
  lemma NodeStep(t: VEB, x: int, t1: VEB, lo: int, pushed: int)
    requires Valid(t) && 0 <= x < t.size && t.min != NIL && t.size > 2
    requires lo == (if x < t.min then x else t.min)
    requires pushed == (if x < t.min then t.min else x)
    requires t1.size == t.size && WellFormedBelow(t1)
    requires ClusterElems(t1) == ClusterElems(t) + {pushed}
    ensures var r := t1.(min := lo, max := if pushed > t.max then pushed else t.max);
      Valid(r) && Elems(r) == Elems(t) + {x}
  {
    var r := t1.(min := lo, max := if pushed > t.max then pushed else t.max);
    assert t.min in Elems(t);
    ClusterElemsFromClusters(t1, r);
    assert t.max == t.min || t.max in ClusterElems(t);
    NodeStepElems(t.min, t.max, x, ClusterElems(t), lo, pushed, r.max);
    assert Elems(r) == Elems(t) + {x};
    assert WellFormedBelow(r) by {
      assert r.summary == t1.summary && r.clusters == t1.clusters && r.size == t1.size;
    }
    NodeStepValid(t, x, r);
  }

  /** The set arithmetic of the non-leaf insert step. */
  lemma NodeStepElems(mn: int, mx: int, x: int, below: set<int>, lo: int, pushed: int, mx': int)
    requires lo == (if x < mn then x else mn) && pushed == (if x < mn then mn else x)
    requires mx' == (if pushed > mx then pushed else mx)
    requires mx == mn || mx in below
    ensures {lo, mx'} + (below + {pushed}) == {mn, mx} + below + {x}
    ensures mx' == lo || mx' in below + {pushed}
  {
  }

  lemma NodeStepValid(t: VEB, x: int, r: VEB)
    requires Valid(t) && 0 <= x < t.size && t.min != NIL && t.size > 2
    requires r.size == t.size && WellFormedBelow(r)
    requires r.min == (if x < t.min then x else t.min)
    requires r.max == (if x > t.max then x else t.max)
    requires r.max == r.min || r.max in ClusterElems(r)
    requires Elems(r) == Elems(t) + {x}
    ensures Valid(r)
  {
    assert t.min in Elems(t);
    forall y | y in Elems(r)
      ensures 0 <= y < r.size && r.min <= y <= r.max
    {
      if y != x {
        assert y in Elems(t);
      }
    }
  }

  /** The cluster part of insert keeps the summary and clusters well formed
      and adds exactly y below the node. */
  lemma {:induction false} PushDownCorrect(t: VEB, y: int)
    requires Valid(t) && t.size > 2 && 0 <= y < t.size
    ensures WellFormedBelow(PushDown(t, y))
    ensures ClusterElems(PushDown(t, y)) == ClusterElems(t) + {y}
    decreases t, 1
  {
    var h := High(t.size, y);
    assert WellFormedBelow(t);
    if t.clusters[h].Some? && t.clusters[h].value.min != NIL {
      PushIntoCluster(t, y);
    } else {
      PushIntoEmptyCluster(t, y);
    }
  }

  /** The recursive case: cluster High(y) already holds elements. */
  lemma {:induction false} PushIntoCluster(t: VEB, y: int)
    requires Valid(t) && t.size > 2 && 0 <= y < t.size
    requires WellFormedBelow(t) && NonEmpty(t.clusters[High(t.size, y)])
    ensures WellFormedBelow(PushDown(t, y))
    ensures ClusterElems(PushDown(t, y)) == ClusterElems(t) + {y}
    decreases t, 0
  {
    var h, l := High(t.size, y), Low(t.size, y);
    var c := t.clusters[h].value;
    InsertCorrect(c, l);
    RefillStep(t, y, h, l, Insert(c, l));
  }

  lemma RefillStep(t: VEB, y: int, h: int, l: int, c': VEB)
    requires t.size > 2 && WellFormedBelow(t) && 0 <= y < t.size
    requires h == High(t.size, y) && l == Low(t.size, y)
    requires NonEmpty(t.clusters[h])
    requires c'.size == CeilSqrt(t.size) && Valid(c')
    requires Elems(c') == Elems(t.clusters[h].value) + {l}
    ensures var r := t.(clusters := t.clusters[h := Some(c')]);
      WellFormedBelow(r) && ClusterElems(r) == ClusterElems(t) + {y}
  {
    var r := t.(clusters := t.clusters[h := Some(c')]);
    ClusterElemsUpdate(t, r, h, c', l, y);
    assert l in Elems(c');
    RefillCluster(t, h, c');
  }

  /** The fast path: cluster High(y) is absent or empty, so it takes Low(y)
      directly and the summary records High(y). */
  lemma {:induction false} PushIntoEmptyCluster(t: VEB, y: int)
    requires Valid(t) && t.size > 2 && 0 <= y < t.size
    requires WellFormedBelow(t) && !NonEmpty(t.clusters[High(t.size, y)])
    ensures WellFormedBelow(PushDown(t, y))
    ensures ClusterElems(PushDown(t, y)) == ClusterElems(t) + {y}
    decreases t, 0
  {
    var h, l := High(t.size, y), Low(t.size, y);
    var c := if t.clusters[h].Some? then t.clusters[h].value else Empty(CeilSqrt(t.size));
    InsertCorrect(t.summary.value, h);
    OpenStep(t, y, h, l, c, Insert(t.summary.value, h));
  }

  lemma OpenStep(t: VEB, y: int, h: int, l: int, c: VEB, sm: VEB)
    requires t.size > 2 && WellFormedBelow(t) && 0 <= y < t.size
    requires h == High(t.size, y) && l == Low(t.size, y)
    requires !NonEmpty(t.clusters[h])
    requires c == if t.clusters[h].Some? then t.clusters[h].value else Empty(CeilSqrt(t.size))
    requires sm.size == CeilSqrt(t.size) && Valid(sm)
    requires Elems(sm) == Elems(t.summary.value) + {h}
    ensures var r := t.(summary := Some(sm), clusters := t.clusters[h := Some(c.(min := l, max := l))]);
      WellFormedBelow(r) && ClusterElems(r) == ClusterElems(t) + {y}
  {
    var cv := c.(min := l, max := l);
    var r := t.(summary := Some(sm), clusters := t.clusters[h := Some(cv)]);
    assert OptElems(t.clusters[h]) == {};
    FillEmpty(c, l);
    ClusterElemsUpdate(t, r, h, cv, l, y);
    OpenCluster(t, h, cv, sm);
  }

  /** Replacing a non-empty cluster by a valid non-empty one of the same size
      keeps the node well formed below. */
  lemma RefillCluster(t: VEB, h: int, c: VEB)
    requires t.size > 2 && WellFormedBelow(t) && 0 <= h < |t.clusters|
    requires NonEmpty(t.clusters[h])
    requires c.size == CeilSqrt(t.size) && Valid(c) && Elems(c) != {}
    ensures WellFormedBelow(t.(clusters := t.clusters[h := Some(c)]))
  {
    var r := t.(clusters := t.clusters[h := Some(c)]);
    assert c.min != NIL;
    UpdateKeepsClustersValid(t, r, h, c);
    RefillKeepsSummaryExact(t, r, h, c);
    BelowIntro(r, CeilSqrt(r.size));
  }

  /** Replacing a non-empty cluster by a non-empty one leaves the summary exact. */
  lemma RefillKeepsSummaryExact(t: VEB, r: VEB, h: int, c: VEB)
    requires t.size > 2 && WellFormedBelow(t) && 0 <= h < |t.clusters|
    requires NonEmpty(t.clusters[h])
    requires r.size == t.size && r.summary == t.summary
    requires r.clusters == t.clusters[h := Some(c)] && c.min != NIL
    ensures forall i | 0 <= i < CeilSqrt(r.size) :: i in Elems(r.summary.value) <==> NonEmpty(r.clusters[i])
  {
  }

  /** Filling a previously empty cluster while recording its index in the
      summary keeps the node well formed below. */
  lemma OpenCluster(t: VEB, h: int, c: VEB, sm: VEB)
    requires t.size > 2 && WellFormedBelow(t) && 0 <= h < |t.clusters|
    requires !NonEmpty(t.clusters[h])
    requires c.size == CeilSqrt(t.size) && Valid(c) && c.min != NIL
    requires sm.size == CeilSqrt(t.size) && Valid(sm)
    requires Elems(sm) == Elems(t.summary.value) + {h}
    ensures WellFormedBelow(t.(summary := Some(sm), clusters := t.clusters[h := Some(c)]))
  {
    var r := t.(summary := Some(sm), clusters := t.clusters[h := Some(c)]);
    UpdateKeepsClustersValid(t, r, h, c);
    OpenKeepsSummaryExact(t, r, h, c, sm);
    BelowIntro(r, CeilSqrt(r.size));
  }

  /** WellFormedBelow from its four parts. */
  lemma BelowIntro(r: VEB, s: nat)
    requires s == CeilSqrt(r.size)
    requires r.summary.Some? && r.summary.value.size == s && Valid(r.summary.value)
    requires |r.clusters| == s
    requires forall i | 0 <= i < s :: r.clusters[i].Some? ==> r.clusters[i].value.size == s && Valid(r.clusters[i].value)
    requires forall i | 0 <= i < s :: i in Elems(r.summary.value) <==> NonEmpty(r.clusters[i])
    ensures WellFormedBelow(r)
  {
  }

  /** Writing a valid cluster of the right size keeps every cluster valid. */
  lemma UpdateKeepsClustersValid(t: VEB, r: VEB, h: int, c: VEB)
    requires t.size > 2 && WellFormedBelow(t) && 0 <= h < |t.clusters|
    requires c.size == CeilSqrt(t.size) && Valid(c)
    requires r.size == t.size && r.clusters == t.clusters[h := Some(c)]
    ensures forall i | 0 <= i < CeilSqrt(r.size) :: r.clusters[i].Some? ==> r.clusters[i].value.size == CeilSqrt(r.size) && Valid(r.clusters[i].value)
  {
  }

  /** Opening cluster h and adding h to the summary keeps the summary exact. */
  lemma OpenKeepsSummaryExact(t: VEB, r: VEB, h: int, c: VEB, sm: VEB)
    requires t.size > 2 && WellFormedBelow(t) && 0 <= h < |t.clusters|
    requires !NonEmpty(t.clusters[h])
    requires r.size == t.size && r.summary == Some(sm)
    requires r.clusters == t.clusters[h := Some(c)] && c.min != NIL
    requires Elems(sm) == Elems(t.summary.value) + {h}
    ensures forall i | 0 <= i < CeilSqrt(r.size) :: i in Elems(r.summary.value) <==> NonEmpty(r.clusters[i])
  {
  }

  // ---------------------------------------------------------------------------
  // Observable consequences

  /** A freshly constructed tree answers false for every element of its universe. */
  lemma EmptyContainsNothing(size: nat, x: int)
    requires 0 <= x < size
    ensures !Contains(Empty(size), x)
  {
  }

  /** After insert(x), contains(x) holds and every other answer is unchanged. */
  lemma {:induction false} InsertThenContains(t: VEB, x: int, y: int)
    requires Valid(t) && 0 <= x < t.size && 0 <= y < t.size
    ensures Valid(Insert(t, x))
    ensures Contains(Insert(t, x), y) <==> y == x || Contains(t, y)
  {
    InsertCorrect(t, x);
  }

  /** Inserting an element already present changes no contains answer (the
      shape may change: an element equal to min is pushed into a cluster). */
  lemma {:induction false} InsertPresentIsInvisible(t: VEB, x: int)
    requires Valid(t) && 0 <= x < t.size && Contains(t, x)
    ensures Valid(Insert(t, x)) && Elems(Insert(t, x)) == Elems(t)
    ensures forall y | 0 <= y < t.size :: Contains(Insert(t, x), y) == Contains(t, y)
  {
    InsertCorrect(t, x);
  }

  /** The outcome of two inserts does not depend on their order. */
  lemma {:induction false} InsertOrderIrrelevant(t: VEB, x: int, y: int)
    requires Valid(t) && 0 <= x < t.size && 0 <= y < t.size
    ensures Valid(Insert(t, x)) && Valid(Insert(t, y))
    ensures Elems(Insert(Insert(t, x), y)) == Elems(t) + {x, y}
    ensures Elems(Insert(Insert(t, y), x)) == Elems(t) + {x, y}
  {
    InsertTwice(t, x, y);
    InsertTwice(t, y, x);
  }

  /** Two inserts in a row add both elements. */
  lemma {:induction false} InsertTwice(t: VEB, x: int, y: int)
    requires Valid(t) && 0 <= x < t.size && 0 <= y < t.size
    ensures Valid(Insert(t, x))
    ensures Elems(Insert(Insert(t, x), y)) == Elems(t) + {x, y}
  {
    InsertCorrect(t, x);
    InsertCorrect(Insert(t, x), y);
  }

  /** After insert the node is non-empty, min is the least element and max the
      greatest. */
  lemma {:induction false} InsertMinMax(t: VEB, x: int)
    requires Valid(t) && 0 <= x < t.size
    ensures var r := Insert(t, x);
      && r.min != NIL && r.max != NIL
      && r.min in Elems(r) && r.max in Elems(r)
      && (forall y | y in Elems(r) :: r.min <= y <= r.max)
  {
    InsertCorrect(t, x);
  }

  /** On every valid tree, min == -1 exactly when max == -1 exactly when the set
      is empty; otherwise min is the least and max the greatest element. */
  lemma ValidMinMax(t: VEB)
    requires Valid(t)
    ensures t.min == NIL <==> Elems(t) == {}
    ensures t.max == NIL <==> Elems(t) == {}
    ensures t.min != NIL ==>
      && t.min in Elems(t) && t.max in Elems(t)
      && forall y | y in Elems(t) :: t.min <= y <= t.max
  {
  }
}
