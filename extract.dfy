/** Step 3 of a run: reducing the page's list items to a set of notice
    identifiers (monitor.py, `check_for_updates`, lines 102-117). */
module Extract {
  import opened Wrappers
  import opened Text

  /** A date label of this many characters or more is not a notice date. */
  const MaxDateLength := 25

  /** Placed between the title and the date in an identifier. */
  const Separator := " - "

  /** One `<li>` of the page, reduced to the text of its first `<a>` (title)
      and first `<span>` (date), each `None` when the tag is absent. */
  datatype Item = Item(title: Option<string>, date: Option<string>)

  /** The filter that tells notice dates from navigation labels. */
  predicate ValidDate(date: string) {
    |date| < MaxDateLength && ContainsDigit(date)
  }

  /** The identifier an item contributes, if any. */
  function NoticeId(item: Item): Option<string> {
    if item.title.Some? && item.date.Some? then
      var title := Normalize(item.title.value);
      var date := Normalize(item.date.value);
      if ValidDate(date) then Some(title + Separator + date) else None
    else None
  }

  /** The identifiers contributed by a list of items. */
  function Identifiers(items: seq<Item>): set<string> {
    set i | 0 <= i < |items| && NoticeId(items[i]).Some? :: NoticeId(items[i]).value
  }

  /** `item` has both tags, a valid normalised date, and `x` is its identifier. */
  predicate Contributes(item: Item, x: string) {
    && item.title.Some? && item.date.Some?
    && |Normalize(item.date.value)| < MaxDateLength
    && ContainsDigit(Normalize(item.date.value))
    && x == Normalize(item.title.value) + Separator + Normalize(item.date.value)
  }

  lemma IdentifiersStep(items: seq<Item>, i: nat)
    requires i < |items|
    ensures Identifiers(items[..i + 1]) ==
      Identifiers(items[..i]) + (if NoticeId(items[i]).Some? then {NoticeId(items[i]).value} else {})
  {
    var prefix, longer := items[..i], items[..i + 1];
    assert forall k :: 0 <= k < i ==> longer[k] == prefix[k];
    assert longer[i] == items[i];
  }

  /** The parse loop: every item with both tags and a plausible date adds
      `title - date` to the set. */
  method ExtractIds(items: seq<Item>) returns (ids: set<string>)
    ensures ids == Identifiers(items)
  {
    ids := {};
    var i := 0;
    while i < |items|
      invariant 0 <= i <= |items|
      invariant ids == Identifiers(items[..i])
    {
      IdentifiersStep(items, i);
      var item := items[i];
      if item.title.Some? && item.date.Some? {
        var title := Normalize(item.title.value);
        var date := Normalize(item.date.value);
        if |date| < MaxDateLength && ContainsDigit(date) {
          ids := ids + {title + Separator + date};
        }
      }
      i := i + 1;
    }
    assert items[..i] == items;
  }

  /** An item contributes an identifier exactly when it has both tags and its
      normalised date passes the filter; nothing else enters the set. */
  lemma IdentifiersExactly(items: seq<Item>, x: string)
    ensures x in Identifiers(items) <==> exists i :: 0 <= i < |items| && Contributes(items[i], x)
  {
  }

  /** Every identifier is a normalised title, the separator, and a
      normalised date that passed the filter. */
  lemma IdentifierShape(items: seq<Item>, x: string)
    requires x in Identifiers(items)
    ensures exists title, date ::
      && x == title + Separator + date
      && IsNormal(title) && IsNormal(date) && ValidDate(date)
  {
  }

  /** A label without digits, such as a department name, is rejected. */
  lemma RegistrarLabelRejected(title: string)
    ensures NoticeId(Item(Some(title), Some("Submitted by Registrar's Office"))) == None
  {
    var office := "Submitted by Registrar's Office";
    assert forall i :: 0 <= i < |office| ==> !IsDigit(office[i]);
    NormalizeKeepsDigits(office);
  }

  lemma SampleLabelsNormal()
    ensures IsNormal("Exam Form") && IsNormal("12 Jan 2025")
  {
    var title, date := "Exam Form", "12 Jan 2025";
    assert forall i :: 0 <= i < |title| && IsSpace(title[i]) ==> i == 4;
    assert forall i :: 0 <= i < |date| && IsSpace(date[i]) ==> i == 2 || i == 6;
  }

  /** A label that is already normal and passes the filter is kept verbatim. */
  lemma NormalLabelAccepted(title: string, date: string)
    requires IsNormal(title) && IsNormal(date) && ValidDate(date)
    ensures NoticeId(Item(Some(title), Some(date))) == Some(title + Separator + date)
  {
    NormalizeFixesNormal(title);
    NormalizeFixesNormal(date);
  }

  /** A day-month-year label is accepted. */
  lemma DateLabelAccepted(title: string, date: string)
    requires title == "Exam Form" && date == "12 Jan 2025"
    ensures NoticeId(Item(Some(title), Some(date))) == Some(title + Separator + date)
  {
    SampleLabelsNormal();
    assert IsDigit(date[0]);
    assert ValidDate(date);
    NormalLabelAccepted(title, date);
  }
}
