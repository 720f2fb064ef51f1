/** The JSON-RPC filter registry: filters by id, and a heap of timeouts holding exactly the
    filters that have no websocket. Each locked section is one method. */
module FilterManager {
  import opened Wrappers
  import HeapOrder
  import opened IndexedHeap

  datatype FilterInfo = FilterInfo(id: string, hasWS: bool)

  /** A filterBase: the key is the expiry time and the index is the position in the heap. */
  type Filter = Entry<FilterInfo>

  datatype ChangesError = FilterNotFound | WSFilterDoesNotSupportGetChanges | UpdatesFailed

  /** Every filter is mapped under its id, those without websocket are in the heap, and only such
      filters are. */
  ghost predicate Mapped(filters: map<string, Filter>, members: set<Filter>)
  {
    && (forall id :: id in filters ==> filters[id].info.id == id)
    && (forall id :: id in filters && !filters[id].info.hasWS ==> filters[id] in members)
    && (forall f :: f in members ==> !f.info.hasWS)
  }

  ghost predicate AllRegistered(filters: map<string, Filter>, members: set<Filter>)
  {
    forall f :: f in members ==> f.info.id in filters && filters[f.info.id] == f
  }

  ghost predicate Unindexed(filters: map<string, Filter>)
    reads filters.Values
  {
    forall id :: id in filters && filters[id].info.hasWS ==> filters[id].index == NO_INDEX
  }

  lemma MapNew(filters: map<string, Filter>, members: set<Filter>, id: string, f: Filter)
    requires Mapped(filters, members) && AllRegistered(filters, members) && id !in filters && f.info.id == id
    ensures var members' := if f.info.hasWS then members else members + {f};
            Mapped(filters[id := f], members') && AllRegistered(filters[id := f], members')
  {
  }

  lemma MapAgain(filters: map<string, Filter>, members: set<Filter>, f: Filter)
    requires Mapped(filters, members) && AllRegistered(filters, members) && !f.info.hasWS
    ensures Mapped(filters, members + {f})
    ensures AllRegistered(filters, members + {f}) <==> f.info.id in filters && filters[f.info.id] == f
  {
    assert f in members + {f};
  }

  class Manager {
    const timeout: int
    const timeouts: Heap<FilterInfo>
    var filters: map<string, Filter>

    /** The heap is in order and holds every registered filter without websocket; it may hold
        filters that are no longer registered. */
    ghost predicate Covered()
      reads this, timeouts, timeouts.items, filters.Values
    {
      timeouts.Valid() && Mapped(filters, timeouts.Members()) && Unindexed(filters)
    }

    /** The heap holds nothing else. */
    ghost predicate Valid()
      reads this, timeouts, timeouts.items, filters.Values
    {
      Covered() && AllRegistered(filters, timeouts.Members())
    }

    constructor (timeout: int)
      ensures Valid() && fresh(timeouts)
      ensures filters == map[] && this.timeout == timeout
    {
      this.timeout := timeout;
      filters := map[];
      timeouts := new Heap<FilterInfo>();
    }

    lemma NotInHeap()
      requires Covered()
      ensures forall id :: id in filters && filters[id].info.hasWS ==> filters[id] !in timeouts.items
    {
      forall id | id in filters && filters[id].info.hasWS
        ensures filters[id] !in timeouts.items
      {
        assert filters[id] !in timeouts.Members();
      }
    }

    /** Registers a filter under a new id; without a websocket it is due at now + timeout. */
    method AddFilter(id: string, hasWS: bool, now: int) returns (f: Filter)
      requires Valid()
      requires id !in filters
      modifies this`filters, timeouts, timeouts.items`index
      ensures Valid()
      ensures fresh(f) && f.info == FilterInfo(id, hasWS) && (!hasWS ==> f.key == now + timeout)
      ensures filters == old(filters)[id := f]
    {
      hide HeapOrder.IsHeap, Heap.Keys;
      f := new Entry<FilterInfo>(FilterInfo(id, hasWS), 0, NO_INDEX);
      hide Mapped, AllRegistered;
      MapNew(filters, timeouts.Members(), id, f);
      NotInHeap();
      assert f !in timeouts.Members();
      filters := filters[id := f];
      if !hasWS {
        f.key := now + timeout;
        timeouts.Push(f);
      }
    }

    /** Forgets the filter; says whether there was one. Filters that are no longer registered
        stay in the heap, whatever id is uninstalled. */
    method Uninstall(id: string) returns (removed: bool)
      requires Covered()
      modifies this`filters, timeouts, timeouts.items`index
      ensures Covered() && (old(Valid()) ==> Valid())
      ensures removed <==> id in old(filters)
      ensures filters == old(filters) - {id}
      ensures timeouts.Members() == old(timeouts.Members()) - (if removed then {old(filters)[id]} else {})
      ensures removed ==> old(filters)[id].index == NO_INDEX
      ensures !removed ==> timeouts.items == old(timeouts.items)
      ensures forall m :: 0 <= m < |timeouts.items| ==> timeouts.items[m] in old(timeouts.items)
      ensures forall f :: f in old(timeouts.Members()) && !old(Registered(f)) ==>
                f in timeouts.Members() && !Registered(f)
    {
      hide HeapOrder.IsHeap, Heap.Keys;
      if id !in filters {
        return false;
      }
      var f := filters[id];
      filters := filters - {id};
      timeouts.Located(f);
      if f.index != NO_INDEX {
        var _ := timeouts.Remove(f.index);
      }
      return true;
    }

    /** The filter is the one registered under its id. */
    ghost predicate Registered(f: Filter)
      reads this
    {
      f.info.id in filters && filters[f.info.id] == f
    }

    /** Moves the filter's expiry to now + timeout: out of the heap if it is there, new key, in
        again. The registry stays consistent exactly when the filter is still registered: one
        that was uninstalled since it was looked up is put back into the heap alone. */
    method RefreshFilterTimeout(f: Filter, now: int)
      requires Valid() && !f.info.hasWS
      requires f in timeouts.Members() || f.index == NO_INDEX
      modifies timeouts, timeouts.items`index, f`index, f`key
      ensures Covered() && timeouts.Members() == old(timeouts.Members()) + {f}
      ensures f.key == now + timeout
      ensures Valid() <==> Registered(f)
    {
      hide HeapOrder.IsHeap, Heap.Keys, Mapped, AllRegistered;
      MapAgain(filters, timeouts.Members(), f);
      NotInHeap();
      timeouts.Located(f);
      if f.index != NO_INDEX {
        var _ := timeouts.Remove(f.index);
      }
      f.key := now + timeout;
      timeouts.Push(f);
      assert timeouts.Members() == old(timeouts.Members()) + {f};
    }

    /** Looks the filter up and takes its updates; unknown and websocket filters are refused. */
    method GetFilterAndChanges<U>(id: string, updates: Option<U>) returns (r: Result<(Filter, U), ChangesError>)
      requires Valid()
      ensures r ==
              if id !in filters then Failure(FilterNotFound)
              else if filters[id].info.hasWS then Failure(WSFilterDoesNotSupportGetChanges)
              else if updates.None? then Failure(UpdatesFailed)
              else Success((filters[id], updates.value))
    {
      if id !in filters {
        return Failure(FilterNotFound);
      }
      if filters[id].info.hasWS {
        return Failure(WSFilterDoesNotSupportGetChanges);
      }
      if updates.None? {
        return Failure(UpdatesFailed);
      }
      return Success((filters[id], updates.value));
    }

    /** Polling a filter returns its updates and refreshes it; a refused or failed poll changes
        no expiry. `updates` is what taking the filter's updates gives. */
    method GetFilterChanges<U>(id: string, updates: Option<U>, now: int) returns (r: Result<U, ChangesError>)
      requires Valid()
      modifies timeouts, timeouts.items`index, if id in filters then {filters[id]} else {}
      ensures Valid()
      ensures r ==
              if id !in filters then Failure(FilterNotFound)
              else if filters[id].info.hasWS then Failure(WSFilterDoesNotSupportGetChanges)
              else if updates.None? then Failure(UpdatesFailed)
              else Success(updates.value)
      ensures forall x :: x in filters ==>
                filters[x].key == if r.Success? && x == id then now + timeout else old(filters[x].key)
    {
      var found := GetFilterAndChanges(id, updates);
      if found.Failure? {
        return Failure(found.error);
      }
      RefreshFilterTimeout(found.value.0, now);
      return Success(found.value.1);
    }

    /** The two locked sections of a poll with an uninstall between them leave an expiry in the
        heap for a filter that is gone. */
    method RefreshAfterUninstall(id: string, now: int) returns (f: Filter)
      requires Valid() && id in filters && !filters[id].info.hasWS
      modifies this`filters, timeouts, timeouts.items`index, filters[id]
      ensures Covered() && !Valid() && id !in filters && f == old(filters[id]) && f in timeouts.Members()
    {
      f := filters[id];
      var _ := Uninstall(id);
      RefreshFilterTimeout(f, now);
    }

    /** The id and expiry of an earliest-expiring filter, if any filter can expire. */
    method NextTimeoutFilter() returns (r: Option<(string, int)>)
      requires Covered()
      ensures r.None? <==> timeouts.items == []
      ensures r.Some? ==>
                && timeouts.items != [] && r.value == (timeouts.items[0].info.id, timeouts.items[0].key)
                && forall f :: f in timeouts.Members() ==> r.value.1 <= f.key
      ensures Valid() ==> (r.None? <==> forall id :: id in filters ==> filters[id].info.hasWS)
      ensures Valid() && r.Some? ==>
                && r.value.0 in filters && !filters[r.value.0].info.hasWS
                && filters[r.value.0].key == r.value.1
                && forall id :: id in filters && !filters[id].info.hasWS ==> r.value.1 <= filters[id].key
    {
      if |timeouts.items| == 0 {
        return None;
      }
      var first := timeouts.items[0];
      assert first in timeouts.Members();
      timeouts.FirstIsLeast();
      return Some((first.info.id, first.key));
    }

    /** One timeout of the worker loop: takes the next filter to expire and uninstalls it. When
        that filter is no longer registered nothing changes, so the next round takes it again. */
    method ExpireNext() returns (r: Option<(string, int)>, removed: bool)
      requires Covered()
      modifies this`filters, timeouts, timeouts.items`index
      ensures Covered() && (old(Valid()) ==> Valid())
      ensures removed ==> r.Some? && r.value.0 in old(filters) && filters == old(filters) - {r.value.0}
      ensures !removed ==> filters == old(filters) && timeouts.items == old(timeouts.items)
      ensures old(Valid()) ==> (removed <==> exists id :: id in old(filters) && !old(filters)[id].info.hasWS)
      ensures old(timeouts.items) != [] && old(timeouts.items)[0].info.id !in old(filters) ==> !removed
    {
      hide HeapOrder.IsHeap, Heap.Keys;
      removed := false;
      r := NextTimeoutFilter();
      if r.Some? {
        removed := Uninstall(r.value.0);
      }
    }
  }
}
