/**
 * A signal: an ordered list of connected callbacks, each under a uuid, and
 * a map from each uuid to its callback's position in the list. Connecting
 * appends; disconnecting moves the last callback into the freed position;
 * emitting calls every callback that is set, in list order, and then drops
 * the empty ones.
 *
 * A callback is its identity (`Some(c)`) or the empty function (`None`);
 * every call made while emitting is appended to `calls`.
 */
module Signals {
  import opened Uuid
  import opened Seqs
  import opened Wrappers

  datatype Entry = Entry(uuid: Uuid, callback: Option<nat>)

  datatype Invocation<A> = Invocation(callback: nat, args: A)

  /** The map is exactly the inverse of the entries' positions. */
  predicate Indexed(es: seq<Entry>, index: map<Uuid, nat>)
  {
    (forall i :: 0 <= i < |es| ==> es[i].uuid in index && index[es[i].uuid] == i)
    && (forall u :: u in index ==> index[u] < |es| && es[index[u]].uuid == u)
  }

  predicate DistinctUuids(es: seq<Entry>)
  {
    forall i, j :: 0 <= i < j < |es| ==> es[i].uuid != es[j].uuid
  }

  /** An inverse index can only exist when no uuid is connected twice. */
  lemma IndexedDistinct(es: seq<Entry>, index: map<Uuid, nat>)
    requires Indexed(es, index)
    ensures DistinctUuids(es)
  {
    forall i, j | 0 <= i < j < |es| ensures es[i].uuid != es[j].uuid {
      assert index[es[i].uuid] == i && index[es[j].uuid] == j;
    }
  }

  /** The entries whose callback is set, in order. */
  function Survivors(es: seq<Entry>): seq<Entry>
    decreases |es|
  {
    if es == [] then []
    else Survivors(Pop(es)) + (if Last(es).callback.Some? then [Last(es)] else [])
  }

  /** The uuids of the entries whose callback is empty, in order. */
  function EmptyUuids(es: seq<Entry>): seq<Uuid>
    decreases |es|
  {
    if es == [] then []
    else EmptyUuids(Pop(es)) + (if Last(es).callback.None? then [Last(es).uuid] else [])
  }

  /** The calls emitting over `es` makes: each set callback once, in order, with `args`. */
  function EmitTrace<A>(es: seq<Entry>, args: A): seq<Invocation<A>>
    decreases |es|
  {
    if es == [] then []
    else
      EmitTrace(Pop(es), args) + (if Last(es).callback.Some? then [Invocation(Last(es).callback.value, args)] else [])
  }

  /** The entries whose uuid is not in `bad`, in order. */
  function KeepNotIn(es: seq<Entry>, bad: seq<Uuid>): seq<Entry>
    decreases |es|
  {
    if es == [] then []
    else KeepNotIn(Pop(es), bad) + (if Last(es).uuid !in bad then [Last(es)] else [])
  }

  /** The survivors are exactly the entries with a callback set. */
  lemma {:induction false} SurvivorsMembers(es: seq<Entry>)
    ensures forall e :: e in Survivors(es) <==> e in es && e.callback.Some?
    decreases |es|
  {
    if es != [] {
      SurvivorsMembers(Pop(es));
      assert es == Pop(es) + [Last(es)];
    }
  }

  /** Dropping entries keeps the uuids distinct. */
  lemma {:induction false} SurvivorsDistinct(es: seq<Entry>)
    requires DistinctUuids(es)
    ensures DistinctUuids(Survivors(es))
    decreases |es|
  {
    if es != [] {
      var p := Pop(es);
      assert DistinctUuids(p) by {
        forall i, j | 0 <= i < j < |p| ensures p[i].uuid != p[j].uuid {
          assert p[i] == es[i] && p[j] == es[j];
        }
      }
      SurvivorsDistinct(p);
      SurvivorsMembers(p);
      var s := Survivors(p);
      forall k | 0 <= k < |s| ensures s[k].uuid != Last(es).uuid {
        assert s[k] in p;
        var m :| 0 <= m < |p| && p[m] == s[k];
        assert es[m] == s[k];
      }
    }
  }

  /** A uuid is among the empty ones exactly when an entry under it has an empty callback. */
  lemma {:induction false} EmptyUuidsMembers(es: seq<Entry>, u: Uuid)
    ensures u in EmptyUuids(es) <==> exists k :: 0 <= k < |es| && es[k].uuid == u && es[k].callback.None?
    decreases |es|
  {
    if es != [] {
      var p := Pop(es);
      EmptyUuidsMembers(p, u);
      if exists k :: 0 <= k < |es| && es[k].uuid == u && es[k].callback.None? {
        var k :| 0 <= k < |es| && es[k].uuid == u && es[k].callback.None?;
        if k < |p| {
          assert p[k] == es[k];
        }
      }
      if exists k :: 0 <= k < |p| && p[k].uuid == u && p[k].callback.None? {
        var k :| 0 <= k < |p| && p[k].uuid == u && p[k].callback.None?;
        assert es[k] == p[k];
      }
    }
  }

  /** Removing the entries whose uuid is listed is removing the entries listed by their empty callback. */
  lemma {:induction false} KeepNotInSurvivors(es: seq<Entry>, bad: seq<Uuid>)
    requires forall i :: 0 <= i < |es| ==> (es[i].uuid in bad <==> es[i].callback.None?)
    ensures KeepNotIn(es, bad) == Survivors(es)
    decreases |es|
  {
    if es != [] {
      var p := Pop(es);
      assert forall i :: 0 <= i < |p| ==> p[i] == es[i];
      KeepNotInSurvivors(p, bad);
    }
  }

  /** Emitting calls each set callback exactly once, in list order, with the same arguments. */
  lemma {:induction false} EmitTraceCalls<A>(es: seq<Entry>, args: A)
    ensures |EmitTrace(es, args)| == |Survivors(es)|
    ensures forall k :: 0 <= k < |Survivors(es)| ==>
              Survivors(es)[k].callback.Some? && EmitTrace(es, args)[k] == Invocation(Survivors(es)[k].callback.value, args)
    decreases |es|
  {
    if es != [] {
      EmitTraceCalls(Pop(es), args);
    }
  }

  /**
   * The cleanup as written: the listed entries are removed and their uuids
   * erased from the map, but the survivors' positions are not refreshed.
   */
  function CleanupAsWritten(es: seq<Entry>, index: map<Uuid, nat>, bad: seq<Uuid>): (r: (seq<Entry>, map<Uuid, nat>))
    ensures r.0 == KeepNotIn(es, bad)
    ensures r.1.Keys == index.Keys - set u | u in bad
    ensures forall u :: u in r.1 ==> r.1[u] == index[u]
  {
    (KeepNotIn(es, bad), index - set u | u in bad)
  }

  /**
   * As written, an empty callback ahead of a set one leaves the set one's
   * map entry pointing past the end of the list.
   */
  lemma CleanupAsWrittenGoesStale()
    ensures Indexed([Entry(1, None), Entry(2, Some(0))], map[1 := 0, 2 := 1])
    ensures CleanupAsWritten([Entry(1, None), Entry(2, Some(0))], map[1 := 0, 2 := 1], [1])
         == ([Entry(2, Some(0))], map[2 := 1])
    ensures !Indexed([Entry(2, Some(0))], map[2 := 1])
  {
    var es := [Entry(1, None), Entry(2, Some(0))];
    assert Pop(es) == [Entry(1, None)];
    assert Pop(Pop(es)) == [];
    assert EmptyUuids(es) == [1];
    assert KeepNotIn(Pop(es), [1]) == [];
    assert KeepNotIn(es, [1]) == [Entry(2, Some(0))];
    var m: map<Uuid, nat> := map[1 := 0, 2 := 1];
    var bad: seq<Uuid> := [1];
    assert (set u | u in bad) == {1};
    assert m - {1} == map[2 := 1];
    assert CleanupAsWritten(es, m, bad).0 == [Entry(2, Some(0))];
    assert CleanupAsWritten(es, m, bad).1 == map[2 := 1];
  }

  /** The map after swap-removing the entry under `id`, updated the way disconnecting updates it. */
  function IndexAfterRemove(es: seq<Entry>, index: map<Uuid, nat>, id: Uuid): map<Uuid, nat>
    requires Indexed(es, index) && id in index
  {
    var i := index[id];
    var last := |es| - 1;
    (if i != last then index[es[last].uuid := i] else index) - {id}
  }

  /** Disconnecting keeps the map the exact inverse of the positions. */
  lemma DisconnectKeepsIndexed(es: seq<Entry>, index: map<Uuid, nat>, id: Uuid)
    requires Indexed(es, index) && id in index
    ensures Indexed(SwapRemove(es, index[id]), IndexAfterRemove(es, index, id))
    ensures id !in IndexAfterRemove(es, index, id)
  {
    IndexedDistinct(es, index);
    var i, last := index[id], |es| - 1;
    var r, m := SwapRemove(es, i), IndexAfterRemove(es, index, id);
    SwapRemoveAt(es, i);
    forall p | 0 <= p < |r| ensures r[p].uuid in m && m[r[p].uuid] == p {
      if p == i {
        assert r[p] == es[last];
      } else {
        assert r[p] == es[p] && index[es[p].uuid] == p;
      }
    }
    forall u | u in m ensures m[u] < |r| && r[m[u]].uuid == u {
      if i != last && u == es[last].uuid {
        assert m[u] == i && r[i] == es[last];
      } else {
        var q := index[u];
        assert m[u] == q && es[q].uuid == u && q != i && q != last;
        assert r[q] == es[q];
      }
    }
  }

  /** Disconnecting removes exactly the entry under `id` and keeps every other. */
  lemma DisconnectKeepsOthers(es: seq<Entry>, index: map<Uuid, nat>, id: Uuid)
    requires Indexed(es, index) && id in index
    ensures forall e :: e in SwapRemove(es, index[id]) <==> e in es && e.uuid != id
  {
    IndexedDistinct(es, index);
    var i, last := index[id], |es| - 1;
    var r := SwapRemove(es, i);
    SwapRemoveAt(es, i);
    forall e | e in r ensures e in es && e.uuid != id {
      var p :| 0 <= p < |r| && r[p] == e;
      if p == i {
        assert e == es[last] && last != i;
      } else {
        assert e == es[p];
      }
    }
    forall e | e in es && e.uuid != id ensures e in r {
      var p :| 0 <= p < |es| && es[p] == e;
      assert p != i;
      if p == last {
        assert r[i] == e;
      } else {
        assert r[p] == e;
      }
    }
  }

  class Signal<A> {
    /** The connected callbacks, in connection order up to swap-removals. */
    var entries: seq<Entry>
    /** Each connected uuid's position in `entries`. */
    var index: map<Uuid, nat>
    /** The uuids found empty during the current emission. */
    var invalid: seq<Uuid>
    /** Every callback invocation made, in order. */
    var calls: seq<Invocation<A>>

    ghost predicate Valid()
      reads this
    {
      Indexed(entries, index) && invalid == []
    }

    constructor ()
      ensures Valid() && entries == [] && calls == []
    {
      entries := [];
      index := map[];
      invalid := [];
      calls := [];
    }

    /**
     * Appends `callback` under the uuid `id` (a fresh one, drawn by the
     * caller) and records its position; returns `id`.
     */
    method Connect(callback: Option<nat>, id: Uuid) returns (r: Uuid)
      modifies this
      ensures r == id
      ensures entries == old(entries) + [Entry(id, callback)]
      ensures index == old(index)[id := |old(entries)|]
      ensures invalid == old(invalid) && calls == old(calls)
      ensures old(Valid()) && id !in old(index) ==> Valid()
    {
      var i := |entries|;
      entries := entries + [Entry(id, callback)];
      index := index[id := i];
      r := id;
    }

    /** Removes the callback under `id` by moving the last callback into its place; an unknown uuid changes nothing. */
    method Disconnect(id: Uuid)
      requires Valid()
      modifies this
      ensures Valid()
      ensures id !in old(index) ==> entries == old(entries) && index == old(index)
      ensures id in old(index) ==> entries == SwapRemove(old(entries), old(index)[id])
      ensures id in old(index) ==> |entries| == |old(entries)| - 1
      ensures id in old(index) ==> forall e :: e in entries <==> e in old(entries) && e.uuid != id
      ensures id !in index && calls == old(calls)
    {
      if id !in index {
        return;
      }
      DisconnectKeepsIndexed(entries, index, id);
      DisconnectKeepsOthers(entries, index, id);
      ghost var after := IndexAfterRemove(entries, index, id);
      var i := index[id];
      SwapRemoveInPlace(entries, i);
      var last := |entries| - 1;
      if i != last {
        var moved := entries[last];
        entries := entries[i := moved];
        index := index[moved.uuid := i];
      }
      entries := entries[..last];
      index := index - {id};
      assert index == after;
    }

    /** Calls every set callback once, in order, with `args`, then drops the empty ones. */
    method Emit(args: A)
      requires Valid()
      modifies this
      ensures Valid()
      ensures calls == old(calls) + EmitTrace(old(entries), args)
      ensures entries == Survivors(old(entries))
      ensures forall e :: e in entries ==> e.callback.Some?
    {
      var i := 0;
      while i < |entries|
        invariant 0 <= i <= |entries|
        invariant entries == old(entries) && index == old(index)
        invariant calls == old(calls) + EmitTrace(entries[..i], args)
        invariant invalid == EmptyUuids(entries[..i])
      {
        var e := entries[i];
        assert Pop(entries[..i + 1]) == entries[..i];
        if e.callback.Some? {
          calls := calls + [Invocation(e.callback.value, args)];
        } else {
          invalid := invalid + [e.uuid];
        }
        i := i + 1;
      }
      assert entries[..i] == entries;
      SurvivorsMembers(entries);
      CleanupInvalidCallbacks();
    }

    /**
     * Removes the entries listed as empty and erases their uuids; the map
     * is rebuilt from the survivors' new positions.
     */
    method CleanupInvalidCallbacks()
      requires Indexed(entries, index) && invalid == EmptyUuids(entries)
      modifies this
      ensures Valid()
      ensures entries == Survivors(old(entries))
      ensures calls == old(calls)
    {
      IndexedDistinct(entries, index);
      forall i | 0 <= i < |entries| ensures entries[i].uuid in invalid <==> entries[i].callback.None? {
        EmptyUuidsMembers(entries, entries[i].uuid);
      }
      var kept := RemoveListed(entries, invalid);
      KeepNotInSurvivors(entries, invalid);
      SurvivorsDistinct(entries);
      entries := kept;
      index := PositionsOf(kept);
      invalid := [];
    }

    /** The entries whose uuid is not listed in `bad`, in order. */
    static method RemoveListed(es: seq<Entry>, bad: seq<Uuid>) returns (kept: seq<Entry>)
      ensures kept == KeepNotIn(es, bad)
    {
      kept := [];
      var i := 0;
      while i < |es|
        invariant 0 <= i <= |es|
        invariant kept == KeepNotIn(es[..i], bad)
      {
        assert Pop(es[..i + 1]) == es[..i];
        if es[i].uuid !in bad {
          kept := kept + [es[i]];
        }
        i := i + 1;
      }
      assert es[..i] == es;
    }

    /** The map from each uuid of `es` to its position, for entries with distinct uuids. */
    static method PositionsOf(es: seq<Entry>) returns (m: map<Uuid, nat>)
      requires DistinctUuids(es)
      ensures Indexed(es, m)
    {
      m := map[];
      var j := 0;
      while j < |es|
        invariant 0 <= j <= |es|
        invariant Indexed(es[..j], m)
      {
        var u := es[j].uuid;
        forall v | v in m ensures v != u {
          assert es[..j][m[v]] == es[m[v]];
        }
        m := m[u := j];
        j := j + 1;
      }
      assert es[..j] == es;
    }
  }
}
