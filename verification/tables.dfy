/** Row lookup in a table held as a sequence, the way the ORM's
    `objects.get(...)` and `choice_set.get(...)` find a row by its fields. */
module Tables {
  import opened Wrappers

  /** Index of the first row satisfying `matches`, or None when no row does. */
  function FirstMatch<T>(rows: seq<T>, matches: T -> bool): (r: Option<nat>)
    ensures r.Some? ==> r.value < |rows| && matches(rows[r.value])
    ensures r.Some? ==> forall j :: 0 <= j < r.value ==> !matches(rows[j])
    ensures r.None? <==> forall j :: 0 <= j < |rows| ==> !matches(rows[j])
    decreases |rows|
  {
    if |rows| == 0 then None
    else if matches(rows[0]) then Some(0)
    else match FirstMatch(rows[1..], matches)
      case None => None
      case Some(i) => Some(i + 1)
  }
}
