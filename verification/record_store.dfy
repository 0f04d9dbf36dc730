/** The store operations over the record object store: insert-only add,
    overwriting put, lookup, listing and deletion, following the "object store
    storage operation" of section 5.1 of the W3C Indexed Database API. */
module RecordStore {
  import opened Wrappers
  import opened Records

  datatype AddResult = Added(store: Store, id: string) | ConstraintError

  /** `addRecord`: fails when a record with the same id is stored; otherwise
      stores exactly this record and returns its id. */
  function AddRecord(s: Store, r: Record): (res: AddResult)
    ensures res.ConstraintError? <==> r.id in s
    ensures res.Added? ==>
              && res.id == r.id
              && res.store.Keys == s.Keys + {r.id}
              && res.store[r.id] == r
              && forall k | k in s :: res.store[k] == s[k]
  {
    if r.id in s then ConstraintError else Added(s[r.id := r], r.id)
  }

  /** `updateRecord`: stores the record under its id, replacing any record
      already there and creating it otherwise. */
  function UpdateRecord(s: Store, r: Record): (s': Store)
    ensures s'.Keys == s.Keys + {r.id}
    ensures s'[r.id] == r
    ensures forall k | k in s && k != r.id :: s'[k] == s[k]
  {
    s[r.id := r]
  }

  /** `getRecord`: the record stored under `id`, or nothing. */
  function GetRecord(s: Store, id: string): (r: Option<Record>)
    ensures r.Some? <==> id in s
    ensures r.Some? ==> r.value == s[id] && r.value.id == id
  {
    if id in s then Some(s[id]) else None
  }

  /** `deleteRecord`: removes the record under `id`, if any, and nothing else. */
  function DeleteRecord(s: Store, id: string): (s': Store)
    ensures s'.Keys == s.Keys - {id}
    ensures forall k | k in s' :: s'[k] == s[k]
    ensures id !in s ==> s' == s
  {
    s - {id}
  }

  /** `deleteAllRecords`: clears the store. */
  function DeleteAllRecords(s: Store): (s': Store)
    ensures |s'| == 0
  {
    map[]
  }

  /** Where `r` goes into a newest-first list: after every record measured at
      the same time or later, before the first one measured earlier. */
  function InsertionPoint(rs: seq<Record>, r: Record): (i: nat)
    ensures i <= |rs|
    ensures forall j | 0 <= j < i :: rs[j].measuredAt >= r.measuredAt
    ensures i < |rs| ==> rs[i].measuredAt < r.measuredAt
  {
    if |rs| == 0 || rs[0].measuredAt < r.measuredAt then 0
    else 1 + InsertionPoint(rs[1..], r)
  }

  /** Putting `r` at index `i` keeps a newest-first list newest first when
      `i` separates the records measured no earlier from those measured earlier. */
  lemma InsertAtKeepsOrder(rs: seq<Record>, r: Record, i: nat)
    requires i <= |rs|
    requires forall j | 0 <= j < i :: rs[j].measuredAt >= r.measuredAt
    requires i < |rs| ==> rs[i].measuredAt < r.measuredAt
    ensures NewestFirst(rs) ==> NewestFirst(rs[..i] + [r] + rs[i..])
  {
    var rs' := rs[..i] + [r] + rs[i..];
    forall a, b | 0 <= a < b < |rs'| && NewestFirst(rs)
      ensures rs'[a].measuredAt >= rs'[b].measuredAt
    {
      if b < i {
        assert rs'[a] == rs[a] && rs'[b] == rs[b];
      } else if b == i {
        assert rs'[a] == rs[a];
      } else if a < i {
        assert rs'[a] == rs[a] && rs'[b] == rs[b - 1];
      } else if a == i {
        assert rs'[b] == rs[b - 1];
      } else {
        assert rs'[a] == rs[a - 1] && rs'[b] == rs[b - 1];
      }
    }
  }

  /** Putting a record with a new id anywhere into a list of distinct ids
      keeps the ids distinct. */
  lemma InsertAtKeepsIdsDistinct(rs: seq<Record>, r: Record, i: nat)
    requires i <= |rs|
    ensures DistinctIds(rs) && (forall x | x in rs :: x.id != r.id) ==> DistinctIds(rs[..i] + [r] + rs[i..])
  {
    var rs' := rs[..i] + [r] + rs[i..];
    forall a, b | 0 <= a < b < |rs'| && DistinctIds(rs) && (forall x | x in rs :: x.id != r.id)
      ensures rs'[a].id != rs'[b].id
    {
      if b < i {
        assert rs'[a] == rs[a] && rs'[b] == rs[b];
      } else if b == i {
        assert rs'[a] == rs[a];
      } else if a < i {
        assert rs'[a] == rs[a] && rs'[b] == rs[b - 1];
      } else if a == i {
        assert rs'[b] == rs[b - 1];
      } else {
        assert rs'[a] == rs[a - 1] && rs'[b] == rs[b - 1];
      }
    }
  }

  /** `rs` with `r` inserted so that a newest-first list stays newest first. */
  function Insert(rs: seq<Record>, r: Record): (rs': seq<Record>)
    ensures |rs'| == |rs| + 1
    ensures multiset(rs') == multiset(rs) + multiset{r}
    ensures forall x :: x in rs' <==> x in rs || x == r
    ensures NewestFirst(rs) ==> NewestFirst(rs')
    ensures DistinctIds(rs) && (forall x | x in rs :: x.id != r.id) ==> DistinctIds(rs')
  {
    var i := InsertionPoint(rs, r);
    var rs' := rs[..i] + [r] + rs[i..];
    assert rs == rs[..i] + rs[i..];
    assert multiset(rs') == multiset(rs) + multiset{r};
    InsertAtKeepsOrder(rs, r, i);
    InsertAtKeepsIdsDistinct(rs, r, i);
    rs'
  }

  /** `getAllRecords`: every stored record exactly once, newest measurement
      first. */
  method GetAllRecords(s: Store) returns (rs: seq<Record>)
    ensures ListsExactly(rs, s)
    ensures NewestFirst(rs)
  {
    rs := [];
    var pending := s.Keys;
    while pending != {}
      invariant pending <= s.Keys
      invariant |rs| + |pending| == |s|
      invariant DistinctIds(rs)
      invariant forall x | x in rs :: x.id in s && x.id !in pending && s[x.id] == x
      invariant forall k | k in s && k !in pending :: s[k] in rs
      invariant NewestFirst(rs)
      decreases pending
    {
      var k :| k in pending;
      rs := Insert(rs, s[k]);
      pending := pending - {k};
    }
  }

  /** On a fresh id, add and put agree; on a stored id, add fails while put
      overwrites. */
  lemma AddVersusUpdate(s: Store, r: Record)
    ensures r.id !in s ==> AddRecord(s, r) == Added(UpdateRecord(s, r), r.id)
    ensures r.id in s ==> AddRecord(s, r).ConstraintError? && UpdateRecord(s, r)[r.id] == r
  {
  }

  /** A lookup right after a write sees it: the added or put record under
      its id, and nothing under a deleted id or after clearing. */
  lemma GetAfterWrite(s: Store, r: Record, id: string)
    ensures r.id !in s ==> GetRecord(AddRecord(s, r).store, r.id) == Some(r)
    ensures GetRecord(UpdateRecord(s, r), r.id) == Some(r)
    ensures GetRecord(DeleteRecord(s, id), id) == None
    ensures GetRecord(DeleteAllRecords(s), id) == None
  {
  }

  /** After clearing, the only listing of the store is the empty one. */
  lemma ClearedStoreListsNothing(s: Store, rs: seq<Record>)
    ensures ListsExactly(rs, DeleteAllRecords(s)) <==> rs == []
  {
  }

  /** Deleting a freshly added record restores the store. */
  lemma DeleteUndoesAdd(s: Store, r: Record)
    requires r.id !in s
    ensures DeleteRecord(AddRecord(s, r).store, r.id) == s
  {
  }
}
