/** The data model of `JsonReader.java`: one decoded input line is a
    `DataRecord` whose `data` is a `Person`. */
module Records {
  import opened Wrappers

  /** The range of a Java `int`, which is what a boxed `Integer` holds. */
  type Int32 = x: int | -0x8000_0000 <= x < 0x8000_0000

  /** `Person`: the entity an event mutates. `name` is the grouping key and
      is never null here; `salary` may be absent (JSON `null` or missing).
      The ignored `foods` and `vacations` fields are not modelled. */
  datatype Person = Person(name: string, salary: Option<Int32>)

  /** `DataRecord`: one event, ordered by `eventId`. */
  datatype DataRecord = DataRecord(eventId: Int32, data: Person)

  /** The record asserts a salary for the person called `name`. */
  predicate Salaried(r: DataRecord, name: string) {
    r.data.name == name && r.data.salary.Some?
  }
}
