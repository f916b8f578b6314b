# go-todo entry store in Dafny

This project models the storage core of go-todo, a small to-do HTTP service.
The core is the in-memory entry repository `memKVS` and the `Entry` value it
stores. The repository is a table from entry identifier to serialised entry.
It has four single-key operations:

- **Get** fails when the key is absent and otherwise returns the decoded entry.
- **Save** rejects an empty identifier and otherwise overwrites unconditionally.
- **Delete** rejects an empty identifier; removing an absent key is not an
  error.
- **Update** fails when the key is absent and otherwise replaces the stored
  payload with the given entry verbatim. It does not compare the key with the
  entry's own identifier.

Files:

- `wrappers.dfy`: module `Wrappers`, an `Option` type. `None` stands for Go's
  `nil` error and for an unreadable payload.
- `domain.dfy`: module `Domain`, the `Entry` datatype, Go's zero entry `Zero`,
  and `NewEntry`. `NewEntry` takes the generated identifier as a parameter.
- `entry_codec.dfy`: module `EntryCodec`, the serialised form of an entry.
  `Encode` writes the JSON object `{"id":…,"title":…,"description":…,"done":…}`
  as text. `Decode` reads it back and yields `None` for anything else. The
  round trip is proved in both directions (`Encode`, `EncodeDecode`).
- `entry_repo.dfy`: module `EntryRepo`.
  - One pure function per operation gives its result on a table value:
    `GetResult`, `SaveResult`, `DeleteResult` and `UpdateResult`.
  - Lemmas relate the operations to the entries a table holds (`View`) and to
    each other.
  - The class `MemKVS` holds the table in a field `kvs` and performs the
    operations in place. Each method is proved against its function.

A table written only through Save, Update and Delete is `WellFormed`: it has no
empty key and every payload decodes. So `json.Unmarshal`'s failure branch in
Get (`Corrupt` here) is never taken on such a table (`GetResult`, `GetView`,
`MemKVS.Get`).

The store keeps the invariant "no empty key". It does not keep the invariant
"every stored entry's identifier equals its key". Update
(internal/repositories/entryRepo/memory.go:57-65) does not compare `id` with
`entry.ID`, so a store written only through Save and Update can hold an entry
under a key other than its own identifier; `UpdateCanUnpinId` exhibits one.

Source constructs that are values rather than operations, and so carry no
contract of their own:

- `Domain.Entry` models the struct at internal/core/domain/domain.go:6-11.
  It is a datatype with exactly the four fields ID, Title, Description and
  Done, so equality of entries is field-wise equality.
- `Domain.Zero` models the zero entry `&domain.Entry{}` that Get returns
  with its errors (internal/repositories/entryRepo/memory.go:25 and 30).
  `GetResult` states that every failing Get yields it.
- `EntryCodec.Decode` models `json.Unmarshal` at
  internal/repositories/entryRepo/memory.go:24. What it accepts is stated by
  `EncodeDecode`; how it differs from `json.Unmarshal` is listed under
  "## Left out".

## Model

| member | source | states |
|---|---|---|
| `Domain.NewEntry` | internal/core/domain/domain.go:14-22 | the new entry carries the given identifier, title and description unchanged, and is not done |
| `EntryCodec.Encode` | internal/repositories/entryRepo/memory.go:36 | models `json.Marshal(*entry)` (also at memory.go:59); decoding the payload written for an entry gives back that entry. Go's further escapes are not modelled (see "## Left out") |
| `EntryCodec.EncodeDecode` | internal/repositories/entryRepo/memory.go:22-27 | models `json.Unmarshal` (memory.go:24): a payload that decodes is exactly the encoding of the entry it decodes to; the decoder differs from `json.Unmarshal` (see "## Left out") |
| `EntryCodec.EncodeInjective` | internal/repositories/entryRepo/memory.go:59-64 | two entries get the same payload exactly when they are equal |
| `EntryCodec.ReadEscaped` | internal/repositories/entryRepo/memory.go:24 | reading an escaped string literal stops at its closing quote and returns the unescaped text `s` together with what follows the quote |
| `EntryRepo.GetResult` | internal/repositories/entryRepo/memory.go:21-31 | NotFound exactly when the key is absent; on a present key, success with the decoded entry when the payload decodes and Corrupt with the zero entry when it does not; the zero entry on every error; never Corrupt on a well-formed table |
| `EntryRepo.SaveResult` | internal/repositories/entryRepo/memory.go:34-45 | fails with EmptyId, table untouched, exactly when the identifier is empty; otherwise the key set gains the identifier, its payload decodes to the saved entry, and every other key keeps its payload |
| `EntryRepo.DeleteResult` | internal/repositories/entryRepo/memory.go:48-54 | fails with EmptyId, table untouched, exactly when the identifier is empty; otherwise the key is absent afterwards, present or not before, and every other key keeps its payload |
| `EntryRepo.UpdateResult` | internal/repositories/entryRepo/memory.go:57-69 | fails with NotFound, table untouched, exactly when the key is absent; the key set never changes; on success the key's payload decodes to the given entry, whatever its identifier, and every other key keeps its payload |
| `EntryRepo.GetView` | internal/repositories/entryRepo/memory.go:22-30 | on a well-formed table Get returns the held entry when the key is present and NotFound otherwise |
| `EntryRepo.SaveView` | internal/repositories/entryRepo/memory.go:35-44 | Save keeps a table well-formed and maps the identifier to the saved entry, or changes nothing for an empty identifier |
| `EntryRepo.DeleteView` | internal/repositories/entryRepo/memory.go:49-53 | Delete keeps a table well-formed and removes exactly the given identifier from the held entries |
| `EntryRepo.UpdateView` | internal/repositories/entryRepo/memory.go:58-68 | Update keeps a table well-formed and maps a present key to the given entry, changing nothing otherwise |
| `EntryRepo.EmptyGetFails` | internal/repositories/entryRepo/memory.go:14-18 | every Get on an empty store fails with NotFound and returns the zero entry |
| `EntryRepo.SaveThenGet` | internal/repositories/entryRepo/memory_test.go:71-114 | after Save of an entry with a non-empty identifier, Get of that identifier succeeds with an equal entry |
| `EntryRepo.NewEntryThenGet` | internal/core/domain/domain.go:14-22 | an entry built by NewEntry with a non-empty identifier saves without error and reads back with the given identifier, title and description, not done |
| `EntryRepo.SaveOverwrites` | internal/repositories/entryRepo/memory.go:40 | saving twice under one identifier leaves the same table as saving the second entry alone (for the empty identifier both saves change nothing) |
| `EntryRepo.DeleteIdempotent` | internal/repositories/entryRepo/memory_test.go:116-151 | a second Delete of the same identifier changes nothing and reports the same outcome as the first |
| `EntryRepo.DeleteThenGet` | internal/repositories/entryRepo/memory.go:49-51 | after Delete of a non-empty identifier, Get of it fails with NotFound |
| `EntryRepo.UpdateThenGet` | internal/repositories/entryRepo/memory_test.go:153-207 | after Update of a present key, Get of the key returns exactly the given entry |
| `EntryRepo.UpdateCanUnpinId` | internal/repositories/entryRepo/memory.go:58-64 | a store built by Save then Update can hold, under key "a", an entry whose identifier is "b" |
| `EntryRepo.MemKVS.constructor` | internal/repositories/entryRepo/memory.go:14-18 | a new store is valid and its table is empty |
| `EntryRepo.MemKVS.Get` | internal/repositories/entryRepo/memory.go:21-31 | returns GetResult of the table and changes nothing; on a valid store never Corrupt, and succeeds exactly when the key is held, with the held entry |
| `EntryRepo.MemKVS.Save` | internal/repositories/entryRepo/memory.go:34-45 | the new table and error are SaveResult of the old table; validity is kept, and the held entries gain the saved entry under its identifier |
| `EntryRepo.MemKVS.Delete` | internal/repositories/entryRepo/memory.go:48-54 | the new table and error are DeleteResult of the old table; validity is kept, and the held entries lose the identifier |
| `EntryRepo.MemKVS.Update` | internal/repositories/entryRepo/memory.go:57-69 | the new table and error are UpdateResult of the old table; validity is kept, and a present key now holds the given entry |

## Left out

- Concrete JSON bytes: a payload is text (`seq<char>`), not UTF-8 bytes. The
  encoder escapes only `"` and `\`. Go's other escapes (control characters,
  `<`, `>`, `&`, U+2028 and U+2029) are not modelled; they do not affect the
  round trip.
- Invalid UTF-8: Go strings may hold invalid UTF-8, which `json.Marshal`
  replaces with U+FFFD, so Go's own round trip holds only for valid text. Dafny
  strings are sequences of Unicode characters, so the model cannot express such
  strings.
- `EntryCodec.Decode`: this differs from `json.Unmarshal`; neither accepts
  everything the other does. It reads only the exact object `Encode` writes,
  and anything else is Corrupt. `json.Unmarshal` also accepts other key
  orders, white space, unknown or missing fields and keys in other letter
  cases. Conversely, `Decode` accepts raw control characters (below U+0020)
  inside string literals, because `Encode` writes them unescaped;
  `json.Unmarshal` rejects them. In the store, only `Encode` writes payloads,
  so this matters only for payloads not written by Save or Update.
- `json.Marshal` errors (memory.go:37-39, 60-62): encoding is total in the
  model, so Save and Update have no marshalling failure.
- Error values: the model carries an error kind (NotFound, EmptyId, Corrupt),
  not Go's message strings. Get's "entry not found in repository" and Update's
  "no entry with given id found in repository" are both NotFound.
- Identifier generation: `uuid.NewString` is a random generator. `NewEntry`
  takes the identifier as a parameter, and uniqueness of identifiers is not
  modelled.
- Pointers: the model passes entries by value, so nil entries do not arise. In
  Go, Save with a nil `*Entry` always panics. Update with a nil `*Entry` panics
  only when the key is present; on an absent key it returns its not-found error
  (memory.go:58 checks the key before dereferencing the entry at line 59).
  Get hands back a decoded copy, so no aliasing with the store is possible.
- Concurrency: the Go map is unsynchronised. The model is sequential.
- The HTTP handlers, the process bootstrap and the entry service are not part of
  this model. The entry service in internal/core/services/entrySrv/service.go
  is a stub: its `Get` returns a zero entry and a nil error (lines 13-15).
