/** The single persistent state slot: the JSON file that holds the notice
    identifiers of the last successful run (monitor.py, `get_previous_notices`
    and `save_current_notices`). */
module Store {
  import opened Diff

  /** What the state file holds: nothing yet, something that is not valid
      JSON, or a JSON list of identifiers. */
  datatype FileContent = Missing | Corrupt | Json(items: seq<string>)

  /** The set a file decodes to: `set(data)`, or the empty set when the file
      is missing or cannot be parsed. */
  function Decode(file: FileContent): set<string> {
    match file
    case Json(items) => set x | x in items
    case _ => {}
  }

  predicate NoRepeats(items: seq<string>) {
    forall i, j :: 0 <= i < j < |items| ==> items[i] != items[j]
  }

  class NoticeStore {
    var file: FileContent

    constructor (file: FileContent)
      ensures this.file == file
    {
      this.file := file;
    }

    /** The set of identifiers the slot currently holds. */
    ghost function Stored(): set<string>
      reads this
    {
      Decode(file)
    }

    /** Reads the previous identifiers; a missing or corrupt file reads as
        the empty set, so the run proceeds as a first run. */
    method Load() returns (previous: set<string>)
      ensures file.Missing? || file.Corrupt? ==> previous == {}
      ensures file.Json? ==> forall x :: x in previous <==> x in file.items
    {
      match file
      case Json(items) =>
        previous := set x | x in items;
      case _ =>
        previous := {};
    }

    /** Overwrites the file with the identifiers as a JSON list, each once,
        in an order the caller cannot rely on; loading it back gives the
        same set. */
    method Save(notices: set<string>)
      modifies this
      ensures file.Json? && NoRepeats(file.items)
      ensures forall x :: x in file.items <==> x in notices
      ensures Stored() == notices
    {
      var items := SortedList(notices);
      forall i, j | 0 <= i < j < |items|
        ensures items[i] != items[j]
      {
        Text.LessIrreflexive(items[i]);
      }
      file := Json(items);
    }
  }

  /** Saving a set as a list and loading the list back gives the set, in
      whatever order the list was written. */
  lemma RoundTrip(items: seq<string>, notices: set<string>)
    requires forall x :: x in items <==> x in notices
    ensures Decode(Json(items)) == notices
  {
  }
}
