/**
 * Game objects: each has an identifier, a parent link and an ordered list of
 * children. A child is refused when a child with the same identifier is
 * already present; the lifecycle traversals visit the children, in list
 * order and recursively, before the object's own hook (post-order).
 *
 * The overridable hooks (Init, Ready, OnEvent, ...) are not modelled by
 * their effect: each call is recorded in a journal, so the contracts can
 * say which hooks run, on which objects and in which order.
 */
module GameObjects {
  import opened Uuid
  import opened Seqs

  /** The hooks a game object exposes; events and frame deltas are opaque values. */
  datatype Hook =
    | Init
    | Ready
    | OnEvent(event: nat)
    | Update(delta: real)
    | PhysicsUpdate(delta: real)
    | Draw
    | DrawUI
    | Debug

  datatype Call = Call(target: GameObject, hook: Hook)

  /** The record of hook calls, in the order they were made. */
  class Journal {
    var calls: seq<Call>

    constructor ()
      ensures calls == []
    {
      calls := [];
    }

    method Record(c: Call)
      modifies this
      ensures calls == old(calls) + [c]
    {
      calls := calls + [c];
    }
  }

  /**
   * A snapshot of a hierarchy: the children of each object, and a ranking in
   * which every child ranks below its parent. Such a ranking exists exactly
   * when no object is its own descendant, which is what keeps the recursive
   * traversals finite.
   */
  datatype Shape = Shape(kids: map<GameObject, seq<GameObject>>, rank: map<GameObject, nat>)
  {
    ghost predicate Valid()
    {
      && kids.Keys <= rank.Keys
      && forall o, i :: o in kids && 0 <= i < |kids[o]| ==> kids[o][i] in kids && rank[kids[o][i]] < rank[o]
    }

    /** Every object of `cs` is in the snapshot and ranks below `bound`. */
    ghost predicate Below(cs: seq<GameObject>, bound: nat)
    {
      forall c :: c in cs ==> c in kids && c in rank && rank[c] < bound
    }
  }

  /** The snapshot agrees with the objects' current children. */
  ghost predicate Current(s: Shape)
    reads s.kids.Keys
  {
    forall o :: o in s.kids ==> o.children == s.kids[o]
  }

  /** The calls a traversal from `o` makes: each child's subtree in list order, then `o` itself. */
  ghost function Visit(o: GameObject, h: Hook, s: Shape): seq<Call>
    requires s.Valid() && o in s.kids
    decreases s.rank[o], 1
  {
    VisitAll(s.kids[o], h, s, s.rank[o]) + [Call(o, h)]
  }

  ghost function VisitAll(cs: seq<GameObject>, h: Hook, s: Shape, bound: nat): seq<Call>
    requires s.Valid() && s.Below(cs, bound)
    decreases bound, 0, |cs|
  {
    if cs == [] then [] else Visit(cs[0], h, s) + VisitAll(cs[1..], h, s, bound)
  }

  lemma {:induction false} VisitAllSnoc(cs: seq<GameObject>, c: GameObject, h: Hook, s: Shape, bound: nat)
    requires s.Valid() && s.Below(cs + [c], bound)
    ensures VisitAll(cs + [c], h, s, bound) == VisitAll(cs, h, s, bound) + Visit(c, h, s)
    decreases |cs|
  {
    if cs == [] {
      assert [c][1..] == [];
    } else {
      assert (cs + [c])[1..] == cs[1..] + [c];
      VisitAllSnoc(cs[1..], c, h, s, bound);
    }
  }

  /** Every object of the list is visited by the traversal of the list. */
  lemma {:induction false} VisitAllReaches(cs: seq<GameObject>, i: nat, h: Hook, s: Shape, bound: nat)
    requires s.Valid() && s.Below(cs, bound)
    requires i < |cs|
    ensures Call(cs[i], h) in VisitAll(cs, h, s, bound)
    decreases |cs|
  {
    var v := Visit(cs[0], h, s);
    assert v[|v| - 1] == Call(cs[0], h);
    if i > 0 {
      VisitAllReaches(cs[1..], i - 1, h, s, bound);
    }
  }

  /**
   * Post-order: the traversal of `o` ends with `o`'s own hook, and the hook
   * of every child runs strictly before it.
   */
  lemma ChildrenBeforeParent(o: GameObject, i: nat, h: Hook, s: Shape)
    requires s.Valid() && o in s.kids && i < |s.kids[o]|
    ensures Visit(o, h, s)[|Visit(o, h, s)| - 1] == Call(o, h)
    ensures exists k :: 0 <= k < |Visit(o, h, s)| - 1 && Visit(o, h, s)[k] == Call(s.kids[o][i], h)
  {
    var before := VisitAll(s.kids[o], h, s, s.rank[o]);
    VisitAllReaches(s.kids[o], i, h, s, s.rank[o]);
    var k :| 0 <= k < |before| && before[k] == Call(s.kids[o][i], h);
    assert Visit(o, h, s)[k] == before[k];
  }

  /** Whether some object of `cs` carries identifier `id`. */
  predicate UuidIn(cs: seq<GameObject>, id: Uuid)
  {
    exists i :: 0 <= i < |cs| && cs[i].uuid == id
  }

  class GameObject {
    const uuid: Uuid
    var parent: GameObject?
    var children: seq<GameObject>

    /** A new object; the identifier stands for the random one the source generates. */
    constructor (id: Uuid)
      ensures uuid == id && parent == null && children == []
    {
      uuid := id;
      parent := null;
      children := [];
    }

    /** Equality of game objects is equality of identifiers. */
    predicate Equals(other: GameObject)
    {
      uuid == other.uuid
    }

    /** Whether some child already carries identifier `id` (the duplicate check). */
    predicate HasChildWithUuid(id: Uuid)
      reads this
    {
      UuidIn(children, id)
    }

    /**
     * Appends `child` unless it is null or a child with its identifier is
     * already present; an appended child gets this object as parent and its
     * Init hook runs once.
     */
    method AddChildObject(child: GameObject?, journal: Journal)
      modifies this, child, journal
      ensures child == null || old(HasChildWithUuid(child.uuid)) ==>
        children == old(children) && journal.calls == old(journal.calls)
        && (child != null ==> child.parent == old(child.parent))
      ensures child != null && !old(HasChildWithUuid(child.uuid)) ==>
        children == old(children) + [child] && child.parent == this
        && journal.calls == old(journal.calls) + [Call(child, Init)]
      ensures child != this ==> parent == old(parent)
      ensures child != null && child != this ==> child.children == old(child.children)
    {
      if child != null {
        var i := 0;
        while i < |children| && children[i].uuid != child.uuid
          invariant 0 <= i <= |children|
          invariant forall p :: 0 <= p < i ==> children[p].uuid != child.uuid
        {
          i := i + 1;
        }
        if i == |children| {
          children := children + [child];
          child.SetParent(this);
          journal.Record(Call(child, Init));
        }
      }
    }

    /**
     * Removes every occurrence of `child` (by reference), keeping the order of
     * the others, and clears the child's parent link whether or not it was a
     * child of this object.
     */
    method RemoveChildObject(child: GameObject?)
      modifies this, child
      ensures child == null ==> children == old(children)
      ensures child != null ==> children == Without(old(children), child as GameObject) && child.parent == null
      ensures child != this ==> parent == old(parent)
      ensures child != null && child != this ==> child.children == old(child.children)
    {
      if child != null {
        var c: GameObject := child;
        children := Without(children, c);
        child.ResetParent();
      }
    }

    method SetParent(p: GameObject?)
      modifies this
      ensures parent == p && children == old(children)
    {
      parent := p;
    }

    function GetParent(): (p: GameObject?)
      reads this
      ensures p == parent
    {
      parent
    }

    method ResetParent()
      modifies this
      ensures parent == null && children == old(children)
    {
      parent := null;
    }

    /** Runs hook `h` on every object below this one, children first, then on this object. */
    method Traverse(h: Hook, journal: Journal, ghost s: Shape)
      requires s.Valid() && this in s.kids && Current(s)
      modifies journal
      ensures journal.calls == old(journal.calls) + Visit(this, h, s)
      decreases s.rank[this]
    {
      assert children == s.kids[this];
      var i := 0;
      while i < |children|
        invariant 0 <= i <= |children|
        invariant journal.calls == old(journal.calls) + VisitAll(children[..i], h, s, s.rank[this])
      {
        var c := children[i];
        c.Traverse(h, journal, s);
        assert children[..i + 1] == children[..i] + [c];
        VisitAllSnoc(children[..i], c, h, s, s.rank[this]);
        ConcatAssoc(old(journal.calls), VisitAll(children[..i], h, s, s.rank[this]), Visit(c, h, s));
        i := i + 1;
      }
      assert children[..i] == children;
      journal.Record(Call(this, h));
    }

    method ObjectReady(journal: Journal, ghost s: Shape)
      requires s.Valid() && this in s.kids && Current(s)
      modifies journal
      ensures journal.calls == old(journal.calls) + Visit(this, Ready, s)
    {
      Traverse(Ready, journal, s);
    }

    method ObjectOnEvent(event: nat, journal: Journal, ghost s: Shape)
      requires s.Valid() && this in s.kids && Current(s)
      modifies journal
      ensures journal.calls == old(journal.calls) + Visit(this, OnEvent(event), s)
    {
      Traverse(OnEvent(event), journal, s);
    }

    method ObjectUpdate(delta: real, journal: Journal, ghost s: Shape)
      requires s.Valid() && this in s.kids && Current(s)
      modifies journal
      ensures journal.calls == old(journal.calls) + Visit(this, Update(delta), s)
    {
      Traverse(Update(delta), journal, s);
    }

    method ObjectPhysicsUpdate(delta: real, journal: Journal, ghost s: Shape)
      requires s.Valid() && this in s.kids && Current(s)
      modifies journal
      ensures journal.calls == old(journal.calls) + Visit(this, PhysicsUpdate(delta), s)
    {
      Traverse(PhysicsUpdate(delta), journal, s);
    }

    method ObjectDraw(journal: Journal, ghost s: Shape)
      requires s.Valid() && this in s.kids && Current(s)
      modifies journal
      ensures journal.calls == old(journal.calls) + Visit(this, Draw, s)
    {
      Traverse(Draw, journal, s);
    }

    method ObjectDrawUI(journal: Journal, ghost s: Shape)
      requires s.Valid() && this in s.kids && Current(s)
      modifies journal
      ensures journal.calls == old(journal.calls) + Visit(this, DrawUI, s)
    {
      Traverse(DrawUI, journal, s);
    }

    method ObjectDebug(journal: Journal, ghost s: Shape)
      requires s.Valid() && this in s.kids && Current(s)
      modifies journal
      ensures journal.calls == old(journal.calls) + Visit(this, Debug, s)
    {
      Traverse(Debug, journal, s);
    }
  }

  /** A new child object created and added in one step; the result is returned even when the add was refused. */
  method CreateChildObject(parent: GameObject, id: Uuid, journal: Journal) returns (child: GameObject)
    modifies parent, journal
    ensures fresh(child) && child.uuid == id
    ensures !old(parent.HasChildWithUuid(id)) ==>
      parent.children == old(parent.children) + [child] && child.parent == parent
      && journal.calls == old(journal.calls) + [Call(child, Init)]
    ensures old(parent.HasChildWithUuid(id)) ==>
      parent.children == old(parent.children) && child.parent == null && journal.calls == old(journal.calls)
  {
    child := new GameObject(id);
    parent.AddChildObject(child, journal);
  }

  /** The list with every occurrence of `x` removed and every other element kept, in order. */
  function Without<T(==)>(s: seq<T>, x: T): seq<T>
  {
    if s == [] then []
    else if s[0] == x then Without(s[1..], x)
    else [s[0]] + Without(s[1..], x)
  }

  /** Removal drops every occurrence of `x` and keeps every other element with its multiplicity. */
  lemma {:induction false} WithoutMultiset<T>(s: seq<T>, x: T)
    ensures multiset(Without(s, x)) == multiset(s)[x := 0]
    decreases |s|
  {
    if s != [] {
      assert s == [s[0]] + s[1..];
      WithoutMultiset(s[1..], x);
    }
  }

  /** Removing an element that is not there changes nothing. */
  lemma {:induction false} WithoutAbsent<T>(s: seq<T>, x: T)
    requires x !in s
    ensures Without(s, x) == s
    decreases |s|
  {
    if s != [] {
      WithoutAbsent(s[1..], x);
      assert s == [s[0]] + s[1..];
    }
  }

  /** Removal keeps the relative order of the remaining elements: it distributes over concatenation. */
  lemma {:induction false} WithoutAppend<T>(s: seq<T>, t: seq<T>, x: T)
    ensures Without(s + t, x) == Without(s, x) + Without(t, x)
    decreases |s|
  {
    if s == [] {
      assert s + t == t;
    } else {
      assert (s + t)[1..] == s[1..] + t;
      WithoutAppend(s[1..], t, x);
    }
  }

  /** Removing one element keeps every other element. */
  lemma {:induction false} WithoutKeeps<T>(s: seq<T>, x: T, y: T)
    requires y in s && y != x
    ensures y in Without(s, x)
  {
    WithoutMultiset(s, x);
    assert multiset(s)[y] > 0;
    assert multiset(Without(s, x))[y] == multiset(s)[y];
  }
}
