/**
 * The column-sort toggle shared by the schedule table and the disruptions
 * table (`handleSort`): clicking the current column flips the direction,
 * clicking another column selects it in ascending order.
 */
module SortToggle {

  datatype Direction = Asc | Desc

  datatype SortState = SortState(field: string, direction: Direction)

  /** Both tables start sorted by flight id, ascending. */
  const InitialSort := SortState("flight_id", Asc)

  function Flip(d: Direction): (r: Direction)
    ensures r != d
  {
    if d == Asc then Desc else Asc
  }

  /** `handleSort(field)`. */
  function HandleSort(st: SortState, field: string): (r: SortState)
    ensures r.field == field
    ensures field == st.field ==> r.direction != st.direction
    ensures field != st.field ==> r.direction == Asc
  {
    if st.field == field then st.(direction := Flip(st.direction)) else SortState(field, Asc)
  }

  /** Clicking the current column twice gives back the state before. */
  lemma SameFieldTwice(st: SortState)
    ensures HandleSort(HandleSort(st, st.field), st.field) == st
  {
  }

  /** Clicking a new column twice sorts it descending. */
  lemma NewFieldTwice(st: SortState, field: string)
    requires field != st.field
    ensures HandleSort(HandleSort(st, field), field) == SortState(field, Desc)
  {
  }
}
