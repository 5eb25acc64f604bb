/** Transitive discovery of the serializers reachable through fields
    (`DocumentationGenerator._find_field_serializers`): the graph whose
    edges lead from a serializer to the serializers its fields hold. */
module Discovery {
  import opened Wrappers
  import opened FieldCompiler
  import opened FieldTables

  /** The serializer a field leads to: the field itself when it is a
      serializer, or the child of a list field when that child is one. */
  function FieldSerializer(f: Field): (r: Option<SerializerClass>)
    ensures f.kind.NestedSerializer? ==> r == Some(f.kind.serializer)
    ensures r.Some? && !f.kind.NestedSerializer? ==>
      && f.kind.dataType.Some? && f.kind.dataType.value.ArrayOf?
      && f.kind.dataType.value.child.kind == NestedSerializer(r.value)
    ensures (&& f.kind.Declared? && f.kind.dataType.Some? && f.kind.dataType.value.ArrayOf?
             && f.kind.dataType.value.child.kind.NestedSerializer?) ==>
      r == Some(f.kind.dataType.value.child.kind.serializer)
  {
    match f.kind
    case NestedSerializer(s) => Some(s)
    case Declared(Some(ArrayOf(child))) =>
      if child.kind.NestedSerializer? then Some(child.kind.serializer) else None
    case Declared(_) => None
  }

  /** The serializers a list of fields leads to. */
  function EntriesChildren(es: seq<FieldEntry>): (r: set<SerializerClass>)
    ensures forall c :: c in r <==> exists e :: e in es && FieldSerializer(e.field) == Some(c)
    decreases |es|
  {
    if es == [] then {}
    else
      var last := es[|es| - 1];
      assert es == es[..|es| - 1] + [last];
      EntriesChildren(es[..|es| - 1]) +
        (match FieldSerializer(last.field) case Some(c) => {c} case None => {})
  }

  /** The edges out of `s`. */
  function Children(cat: Catalog, s: SerializerClass): set<SerializerClass> {
    EntriesChildren(FieldsOf(cat, s))
  }

  /** `p` follows field edges from its first to its last element. */
  ghost predicate IsPath(cat: Catalog, p: seq<SerializerClass>) {
    |p| >= 1 && forall i :: 0 <= i < |p| - 1 ==> p[i + 1] in Children(cat, p[i])
  }

  /** `t` is reached from one of `roots` by following at least one edge. */
  ghost predicate Reachable(cat: Catalog, roots: set<SerializerClass>, t: SerializerClass) {
    exists p :: IsPath(cat, p) && |p| >= 2 && p[0] in roots && p[|p| - 1] == t
  }

  /** One more edge from a root or a reached serializer reaches its target. */
  lemma ReachableStep(cat: Catalog, roots: set<SerializerClass>, s: SerializerClass, t: SerializerClass)
    requires s in roots || Reachable(cat, roots, s)
    requires t in Children(cat, s)
    ensures Reachable(cat, roots, t)
  {
    if s in roots {
      assert IsPath(cat, [s, t]);
    } else {
      var p :| IsPath(cat, p) && |p| >= 2 && p[0] in roots && p[|p| - 1] == s;
      var q := p + [t];
      forall i | 0 <= i < |q| - 1 ensures q[i + 1] in Children(cat, q[i]) {
        if i < |p| - 1 {
          assert q[i] == p[i] && q[i + 1] == p[i + 1];
        } else {
          assert q[i] == s && q[i + 1] == t;
        }
      }
      assert IsPath(cat, q);
    }
  }

  /** Any set that holds the children of the roots and is closed under
      children holds everything reachable. */
  lemma ClosedContainsReachable(cat: Catalog, roots: set<SerializerClass>, S: set<SerializerClass>, t: SerializerClass)
    requires forall r :: r in roots ==> Children(cat, r) <= S
    requires forall s :: s in S ==> Children(cat, s) <= S
    requires Reachable(cat, roots, t)
    ensures t in S
  {
    var p :| IsPath(cat, p) && |p| >= 2 && p[0] in roots && p[|p| - 1] == t;
    var i := 1;
    while i < |p| - 1
      invariant 1 <= i <= |p| - 1
      invariant p[i] in S
    {
      assert p[i + 1] in Children(cat, p[i]);
      i := i + 1;
    }
  }

  /** Two serializers that refer to each other, directly or through a list
      field, reach each other and themselves. */
  lemma MutualReferenceReachesBoth(cat: Catalog, s: SerializerClass, t: SerializerClass)
    requires t in Children(cat, s) && s in Children(cat, t)
    ensures Reachable(cat, {s}, s) && Reachable(cat, {s}, t)
  {
    ReachableStep(cat, {s}, s, t);
    ReachableStep(cat, {s}, t, s);
  }

  // ------------------------------------------------------ the walk's state

  /** The state of the discovery walk: `visited` serializers have been
      expanded, `work` waits to be, and `found` holds what was found so
      far. Everything found is reachable, every expanded serializer's
      children are found, and nothing but roots and found serializers is
      ever queued or expanded. */
  ghost predicate WalkInvariant(
    cat: Catalog, roots: set<SerializerClass>,
    visited: set<SerializerClass>, work: set<SerializerClass>, found: set<SerializerClass>)
  {
    && roots <= visited + work
    && (forall s :: s in visited ==> Children(cat, s) <= found)
    && found <= visited + work
    && (forall t :: t in found ==> Reachable(cat, roots, t))
    && (forall s :: s in visited + work ==> s in roots || s in found)
  }

  /** The walk starts with only the roots queued. */
  lemma WalkStart(cat: Catalog, roots: set<SerializerClass>)
    ensures WalkInvariant(cat, roots, {}, roots, {})
  {
  }

  /** Expanding a queued serializer that was not expanded before keeps the
      invariant. */
  lemma WalkExpand(
    cat: Catalog, roots: set<SerializerClass>,
    visited: set<SerializerClass>, work: set<SerializerClass>, found: set<SerializerClass>, s: SerializerClass)
    requires WalkInvariant(cat, roots, visited, work, found)
    requires s in work && s !in visited
    ensures var cs := Children(cat, s);
      WalkInvariant(cat, roots, visited + {s}, (work - {s}) + (cs - (visited + {s})), found + cs)
  {
    var cs := Children(cat, s);
    forall t | t in cs ensures Reachable(cat, roots, t) {
      ReachableStep(cat, roots, s, t);
    }
  }

  /** Dropping a queued serializer that was already expanded keeps the
      invariant. */
  lemma WalkSkip(
    cat: Catalog, roots: set<SerializerClass>,
    visited: set<SerializerClass>, work: set<SerializerClass>, found: set<SerializerClass>, s: SerializerClass)
    requires WalkInvariant(cat, roots, visited, work, found)
    requires s in work && s in visited
    ensures WalkInvariant(cat, roots, visited, work - {s}, found)
  {
  }

  /** When nothing is queued, exactly the reachable serializers are found. */
  lemma WalkDone(
    cat: Catalog, roots: set<SerializerClass>, visited: set<SerializerClass>, found: set<SerializerClass>)
    requires WalkInvariant(cat, roots, visited, {}, found)
    ensures forall t :: t in found <==> Reachable(cat, roots, t)
  {
    forall t | Reachable(cat, roots, t) ensures t in found {
      ClosedContainsReachable(cat, roots, found, t);
    }
  }

  /** A serializer the catalog does not know leads nowhere. */
  lemma UnknownHasNoChildren(cat: Catalog, s: SerializerClass)
    requires s !in cat
    ensures Children(cat, s) == {}
  {
  }

  // ------------------------------------------------ the recursion as written

  /** The recursion of `_find_field_serializers` as the source writes it,
      with `depth` standing for the interpreter's remaining stack: `None`
      is the `RecursionError` raised when it runs out. Its guard against
      expanding a field twice asks whether the field object is in the set
      found by the caller; the fields are built afresh by every
      `serializer()` call and compare by identity, so the guard always lets
      the field through and does not appear here. */
  function AsWrittenFind(cat: Catalog, s: SerializerClass, depth: nat): Option<set<SerializerClass>>
    decreases depth, 0
  {
    if depth == 0 then None else AsWrittenFields(cat, FieldsOf(cat, s), depth - 1)
  }

  /** The loop over one serializer's fields, recursing into each field
      that leads to a serializer. */
  function AsWrittenFields(cat: Catalog, es: seq<FieldEntry>, depth: nat): Option<set<SerializerClass>>
    decreases depth, |es| + 1
  {
    if es == [] then Some({})
    else
      match AsWrittenFields(cat, es[..|es| - 1], depth)
      case None => None
      case Some(acc) =>
        match FieldSerializer(es[|es| - 1].field)
        case None => Some(acc)
        case Some(c) =>
          match AsWrittenFind(cat, c, depth)
          case None => None
          case Some(sub) => Some(acc + {c} + sub)
  }

  /** One field whose recursion fails makes the whole loop fail. */
  lemma {:induction false} AsWrittenFieldsFail(cat: Catalog, es: seq<FieldEntry>, depth: nat, k: int, c: SerializerClass)
    requires 0 <= k < |es| && FieldSerializer(es[k].field) == Some(c)
    requires AsWrittenFind(cat, c, depth) == None
    ensures AsWrittenFields(cat, es, depth) == None
    decreases |es|
  {
    var init := es[..|es| - 1];
    if k < |es| - 1 {
      assert init[k] == es[k];
      AsWrittenFieldsFail(cat, init, depth, k, c);
    }
  }

  /** A serializer with a field of its own type (directly or as a list)
      exhausts any stack: the source never returns for it. */
  lemma {:induction false} AsWrittenSelfReference(cat: Catalog, s: SerializerClass, depth: nat)
    requires s in Children(cat, s)
    ensures AsWrittenFind(cat, s, depth) == None
    decreases depth
  {
    if depth > 0 {
      AsWrittenSelfReference(cat, s, depth - 1);
      var es := FieldsOf(cat, s);
      var e :| e in es && FieldSerializer(e.field) == Some(s);
      var k :| 0 <= k < |es| && es[k] == e;
      AsWrittenFieldsFail(cat, es, depth - 1, k, s);
    }
  }

  /** The visited-set walk, for the same serializer, reaches it. */
  lemma SelfReferenceReached(cat: Catalog, s: SerializerClass)
    requires s in Children(cat, s)
    ensures Reachable(cat, {s}, s)
  {
    ReachableStep(cat, {s}, s, s);
  }
}
