/** The in-memory entry repository (internal/repositories/entryRepo/memory.go):
    a table from entry identifier to serialised entry, with four single-key
    operations. The pure functions below give each operation's result on a
    table value; the class MemKVS performs them in place and is proved
    against them. */
module EntryRepo {
  import opened Wrappers
  import opened Domain
  import opened EntryCodec

  /** The three ways a store operation fails. */
  datatype RepoError =
    | NotFound   // no payload under the key (Get, Update)
    | EmptyId    // the empty string given as key (Save, Delete)
    | Corrupt    // a stored payload that does not decode (Get)

  type Table = map<string, Payload>

  /** The shape every table written only through Save, Update and Delete
      keeps: no empty key, and every payload readable. */
  predicate WellFormed(kvs: Table)
  {
    "" !in kvs && forall k :: k in kvs ==> Decode(kvs[k]).Some?
  }

  /** The entries a well-formed table holds. */
  function View(kvs: Table): map<string, Entry>
    requires WellFormed(kvs)
  {
    map k | k in kvs :: Decode(kvs[k]).value
  }

  /** Get: the decoded entry, or the zero entry and an error. */
  function GetResult(kvs: Table, id: string): (r: (Entry, Option<RepoError>))
    ensures r.1 == Some(NotFound) <==> id !in kvs
    ensures id in kvs && Decode(kvs[id]).Some? ==> r == (Decode(kvs[id]).value, None)
    ensures id in kvs && Decode(kvs[id]).None? ==> r == (Zero, Some(Corrupt))
    ensures r.1 != None ==> r.0 == Zero
    ensures WellFormed(kvs) ==> r.1 != Some(Corrupt)
  {
    if id in kvs then
      match Decode(kvs[id])
      case Some(e) => (e, None)
      case None => (Zero, Some(Corrupt))
    else
      (Zero, Some(NotFound))
  }

  /** Save: refuses the empty identifier; otherwise stores the entry under
      its own identifier, replacing whatever was there. */
  function SaveResult(kvs: Table, e: Entry): (r: (Table, Option<RepoError>))
    ensures r.1 == None <==> e.id != ""
    ensures e.id == "" ==> r == (kvs, Some(EmptyId))
    ensures e.id != "" ==> r.0.Keys == kvs.Keys + {e.id} && Decode(r.0[e.id]) == Some(e)
    ensures forall k :: k in kvs && k != e.id ==> k in r.0 && r.0[k] == kvs[k]
  {
    if e.id != "" then
      (kvs[e.id := Encode(e)], None)
    else
      (kvs, Some(EmptyId))
  }

  /** Delete: refuses the empty identifier; otherwise removes the key,
      whether or not it was present. */
  function DeleteResult(kvs: Table, id: string): (r: (Table, Option<RepoError>))
    ensures r.1 == None <==> id != ""
    ensures id == "" ==> r == (kvs, Some(EmptyId))
    ensures id != "" ==> r.0.Keys == kvs.Keys - {id}
    ensures forall k :: k in r.0 ==> k in kvs && r.0[k] == kvs[k]
  {
    if id != "" then (kvs - {id}, None) else (kvs, Some(EmptyId))
  }

  /** Update: fails on an absent key; otherwise stores `e` verbatim under
      `id`, without comparing `id` with `e.id`. */
  function UpdateResult(kvs: Table, id: string, e: Entry): (r: (Table, Option<RepoError>))
    ensures r.1 == None <==> id in kvs
    ensures id !in kvs ==> r == (kvs, Some(NotFound))
    ensures r.0.Keys == kvs.Keys
    ensures id in kvs ==> Decode(r.0[id]) == Some(e)
    ensures forall k :: k in kvs && k != id ==> r.0[k] == kvs[k]
  {
    if id in kvs then
      (kvs[id := Encode(e)], None)
    else
      (kvs, Some(NotFound))
  }

  /** On a well-formed table Get answers from the entries the table holds,
      and its unreadable-payload branch is never taken. */
  lemma GetView(kvs: Table, id: string)
    requires WellFormed(kvs)
    ensures GetResult(kvs, id) ==
      if id in View(kvs) then (View(kvs)[id], None) else (Zero, Some(NotFound))
  {
  }

  /** Save keeps a table well-formed and, on success, maps `e.id` to `e` in
      the entries it holds. */
  lemma SaveView(kvs: Table, e: Entry)
    requires WellFormed(kvs)
    ensures WellFormed(SaveResult(kvs, e).0)
    ensures View(SaveResult(kvs, e).0) == if e.id == "" then View(kvs) else View(kvs)[e.id := e]
  {
  }

  /** Delete keeps a table well-formed and drops `id` from the entries it
      holds (for the empty identifier there is nothing to drop). */
  lemma DeleteView(kvs: Table, id: string)
    requires WellFormed(kvs)
    ensures WellFormed(DeleteResult(kvs, id).0)
    ensures View(DeleteResult(kvs, id).0) == View(kvs) - {id}
  {
  }

  /** Update keeps a table well-formed and, when `id` is present, maps it to
      `e` in the entries it holds. */
  lemma UpdateView(kvs: Table, id: string, e: Entry)
    requires WellFormed(kvs)
    ensures WellFormed(UpdateResult(kvs, id, e).0)
    ensures View(UpdateResult(kvs, id, e).0) == if id in kvs then View(kvs)[id := e] else View(kvs)
  {
  }

  /** A new store holds nothing: every Get on it fails with NotFound. */
  lemma EmptyGetFails(id: string)
    ensures GetResult(map[], id) == (Zero, Some(NotFound))
  {
  }

  /** Round trip: after a successful Save, Get of the entry's identifier
      returns an entry equal to the one saved. */
  lemma SaveThenGet(kvs: Table, e: Entry)
    requires e.id != ""
    ensures GetResult(SaveResult(kvs, e).0, e.id) == (e, None)
  {
  }

  /** An entry built by NewEntry with a non-empty identifier can be saved,
      and reading it back yields the given title and description, not done. */
  lemma NewEntryThenGet(kvs: Table, id: string, title: string, description: string)
    requires id != ""
    ensures SaveResult(kvs, NewEntry(id, title, description)).1 == None
    ensures GetResult(SaveResult(kvs, NewEntry(id, title, description)).0, id)
      == (Entry(id, title, description, false), None)
  {
  }

  /** Saving under an identifier already in use replaces the earlier entry:
      the last write wins (for the empty identifier neither save changes
      the table). */
  lemma SaveOverwrites(kvs: Table, e1: Entry, e2: Entry)
    requires e1.id == e2.id
    ensures SaveResult(SaveResult(kvs, e1).0, e2).0 == SaveResult(kvs, e2).0
  {
  }

  /** Deleting twice is the same as deleting once, and the second call does
      not fail: removing an absent key is not an error. */
  lemma DeleteIdempotent(kvs: Table, id: string)
    ensures DeleteResult(DeleteResult(kvs, id).0, id) == DeleteResult(kvs, id)
  {
    if id != "" {
      assert (kvs - {id}) - {id} == kvs - {id};
    }
  }

  /** After a successful Delete, Get of that identifier fails with NotFound. */
  lemma DeleteThenGet(kvs: Table, id: string)
    requires id != ""
    ensures GetResult(DeleteResult(kvs, id).0, id) == (Zero, Some(NotFound))
  {
  }

  /** Update stores the entry it is given verbatim: Get of the key returns
      `e` itself, also when `e.id` differs from the key. */
  lemma UpdateThenGet(kvs: Table, id: string, e: Entry)
    requires id in kvs
    ensures GetResult(UpdateResult(kvs, id, e).0, id) == (e, None)
  {
  }

  /** Because Update does not compare the key with the entry's identifier, a
      store reached only through Save and Update can hold an entry under a
      key different from its own identifier. */
  lemma UpdateCanUnpinId()
    ensures
      var saved := SaveResult(map[], NewEntry("a", "Title", "")).0;
      var updated := UpdateResult(saved, "a", NewEntry("b", "Title", "")).0;
      WellFormed(updated) && "a" in View(updated) && View(updated)["a"].id == "b"
  {
    var saved := SaveResult(map[], NewEntry("a", "Title", "")).0;
    SaveView(map[], NewEntry("a", "Title", ""));
    UpdateView(saved, "a", NewEntry("b", "Title", ""));
  }

  /** A store modelled as a class whose one field, the table, the operations
      update in place. Every object built by the constructor and changed
      only by these methods is Valid. */
  class MemKVS {
    var kvs: Table

    ghost predicate Valid()
      reads this
    {
      WellFormed(kvs)
    }

    /** The entries the store holds. */
    ghost function Entries(): map<string, Entry>
      reads this
      requires Valid()
    {
      View(kvs)
    }

    /** NewMemKVS: an empty store. */
    constructor ()
      ensures Valid()
      ensures kvs == map[] && Entries() == map[]
    {
      kvs := map[];
    }

    /** Reads the entry stored under `id`; changes nothing. */
    method Get(id: string) returns (entry: Entry, err: Option<RepoError>)
      ensures (entry, err) == GetResult(kvs, id)
      ensures Valid() ==> err != Some(Corrupt)
      ensures Valid() ==> (err == None <==> id in Entries())
      ensures Valid() && err == None ==> entry == Entries()[id]
    {
      if id in kvs {
        var decoded := Decode(kvs[id]);
        if decoded.Some? {
          entry, err := decoded.value, None;
        } else {
          entry, err := Zero, Some(Corrupt);
        }
      } else {
        entry, err := Zero, Some(NotFound);
      }
    }

    method Save(e: Entry) returns (err: Option<RepoError>)
      modifies this
      ensures (kvs, err) == SaveResult(old(kvs), e)
      ensures old(Valid()) ==> Valid()
      ensures old(Valid()) ==>
        Entries() == if e.id == "" then old(Entries()) else old(Entries())[e.id := e]
    {
      if e.id != "" {
        kvs := kvs[e.id := Encode(e)];
        err := None;
      } else {
        err := Some(EmptyId);
      }
      if old(Valid()) {
        SaveView(old(kvs), e);
      }
    }

    method Delete(id: string) returns (err: Option<RepoError>)
      modifies this
      ensures (kvs, err) == DeleteResult(old(kvs), id)
      ensures old(Valid()) ==> Valid() && Entries() == old(Entries()) - {id}
    {
      if id != "" {
        kvs := kvs - {id};
        err := None;
      } else {
        err := Some(EmptyId);
      }
      if old(Valid()) {
        DeleteView(old(kvs), id);
      }
    }

    method Update(id: string, e: Entry) returns (err: Option<RepoError>)
      modifies this
      ensures (kvs, err) == UpdateResult(old(kvs), id, e)
      ensures old(Valid()) ==> Valid()
      ensures old(Valid()) ==>
        Entries() == if id in old(kvs) then old(Entries())[id := e] else old(Entries())
    {
      if id in kvs {
        kvs := kvs[id := Encode(e)];
        err := None;
      } else {
        err := Some(NotFound);
      }
      if old(Valid()) {
        UpdateView(old(kvs), id, e);
      }
    }
  }
}
