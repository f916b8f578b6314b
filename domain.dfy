/** The to-do item the store holds (internal/core/domain/domain.go). */
module Domain {

  /** An entry has exactly four fields, so two entries are equal exactly when
      their fields are. */
  datatype Entry = Entry(id: string, title: string, description: string, done: bool)

  /** Go's zero value `domain.Entry{}`, handed back together with an error. */
  const Zero: Entry := Entry("", "", "", false)

  /** Builds a fresh, not-yet-done entry. The UUID that Go's `NewEntry` draws
      with `uuid.NewString` is passed in as `id`. */
  function NewEntry(id: string, title: string, description: string): (e: Entry)
    ensures e.id == id
    ensures e.title == title && e.description == description
    ensures !e.done
  {
    Entry(id, title, description, false)
  }
}
