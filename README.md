# Notice-board change detector

A Dafny model of the notice monitor in `monitor.py`. Each run of the monitor
fetches the university notices page and reduces its list items to a set of
notice identifiers of the form `title - date`. It compares that set with the
set saved by the previous run and then sends one of three things: an
"initialized" message, a "new notices" message listing the added notices in
sorted order, or nothing. Finally it overwrites the saved set, unless the run
aborted earlier.

Modules, one per component of `check_for_updates` and its helpers:

- `Text` (`text.dfy`): Python's `" ".join(s.split())` (`Words`, `JoinSpace`,
  `Normalize`), the digit test of the date filter, and Python's code-point
  order on strings (`Less`).
- `Extract` (`extract.dfy`): a list item as an optional title and an optional
  date (`Item`), the identifier an item contributes (`NoticeId`), and the
  parse loop (`ExtractIds`), proved against the set `Identifiers`.
- `Diff` (`diff.dfy`): the message kinds (`Message`), `sorted(...)` on a set
  of strings (`SortedList`), and the three-way decision (`Classify`).
- `Store` (`store.dfy`): the state file as `Missing`, `Corrupt` or a JSON
  list, and the class `NoticeStore` whose `file` field `Save` overwrites.
- `Monitor` (`monitor.dfy`): the run itself (`Run`): the fetch-failure
  abort, the selector fallback, the empty-extraction abort, the
  classification and the final save.
- `Wrappers` (`wrappers.dfy`): `Option`.

Points of `monitor.py` the model keeps as they are:

- The previous state is loaded before the page is fetched (line 70).
- A change that only removes notices sends no message (line 150).
- The initialization message carries no list of notices (lines 133-137).
- Only the added notices are computed (line 129); no list of removed notices
  is built.

## Model

| member | source | states |
|---|---|---|
| `Text.Words` | monitor.py:107-108 | `s.split()` yields only words: each piece is non-empty and holds no whitespace |
| `Text.Normalize` | monitor.py:107-108 | the normalised text is normal (whitespace occurs only as a single `' '`, never first or last, never next to other whitespace) and splits into the same words as the input |
| `Text.NormalizeUnique` | monitor.py:107-108 | those two properties determine the result: the only normal string with the words of `s` is `Normalize(s)`, so every whitespace run becomes exactly one space |
| `Text.WordsOfJoin` | monitor.py:107-108 | splitting `" ".join(ws)` gives back `ws` for any list of words |
| `Text.NormalizeIdempotent` | monitor.py:107-108 | normalising twice equals normalising once |
| `Text.NormalizeFixesNormal` | monitor.py:107-108 | a string that is already normal is returned unchanged |
| `Text.NormalizeKeepsText` | monitor.py:107-108 | the non-whitespace characters of the input survive normalisation, all of them and in order |
| `Text.NormalizeKeepsDigits` | monitor.py:108-111 | the normalised date contains a digit exactly when the raw date does |
| `Text.LessIrreflexive` | monitor.py:141 | no string sorts before itself |
| `Text.LessAsymmetric` | monitor.py:141 | if `a` sorts before `b`, `b` does not sort before `a` |
| `Text.LessTransitive` | monitor.py:141 | the string order used by `sorted` is transitive |
| `Text.LessTotal` | monitor.py:141 | any two distinct strings are ordered one way or the other |
| `Diff.SortedList` | monitor.py:141 | `sorted(list(s))` has the elements of `s` and only those, each once, strictly ascending |
| `Diff.SortedListUnique` | monitor.py:141 | every strictly ascending enumeration of `s` equals `SortedList(s)`, so the notice list is fully determined by the set |
| `Diff.Classify` | monitor.py:126-150 | no message exactly when current ⊆ previous, so equal sets and removed-only changes are silent. The init message is sent exactly when previous is empty and current is not. Otherwise a new-notices message carries exactly current − previous, each once, sorted, never an element of previous |
| `Extract.ExtractIds` | monitor.py:102-117 | the loop that adds identifiers builds exactly `Identifiers(items)` |
| `Extract.IdentifiersExactly` | monitor.py:102-117 | `x` is extracted iff some item has both tags and a normalised date under 25 characters that contains a digit, and `x` is that item's normalised title, `" - "` and normalised date |
| `Extract.IdentifierShape` | monitor.py:106-113 | every identifier is a normal title, the separator and a normal date that passed the filter |
| `Extract.NormalLabelAccepted` | monitor.py:106-113 | an item whose title and date are already normal and whose date passes the filter yields `title - date` verbatim |
| `Extract.RegistrarLabelRejected` | monitor.py:110-115 | the label "Submitted by Registrar's Office" (no digit) contributes nothing, whatever the title |
| `Extract.DateLabelAccepted` | monitor.py:110-113 | the label "12 Jan 2025" with title "Exam Form" yields "Exam Form - 12 Jan 2025" |
| `Store.NoticeStore.Load` | monitor.py:42-55 | a missing or corrupt file reads as the empty set; a JSON list reads as the set of its elements |
| `Store.NoticeStore.Save` | monitor.py:57-63 | the file becomes a JSON list holding each element of the set once; loading it back gives the same set |
| `Store.RoundTrip` | monitor.py:49-62 | a list written for a set decodes to that set, whatever its order |
| `Monitor.Run` | monitor.py:65-155 | a failed fetch, or both selectors finding nothing, leaves the file untouched and sends nothing. The fallback items are used only when the primary selector found none. An empty identifier set leaves the file untouched and sends nothing. Otherwise the message is `Classify(previous, current)` and the file decodes to the current set, in every branch |
| `Monitor.RunTwice` | monitor.py:126-153 | a second run over the same page sends no message |

## Left out

- HTTP: the page fetch (`requests.get`, status check, timeout) is the boolean
  `fetched`; the Telegram POST is the returned `Message`. Credentials and the
  check that they are set (lines 16-23, 157-161) are configuration.
- HTML parsing: BeautifulSoup, the CSS selectors and `get_text(strip=True)`
  are foreign code. `Run` takes the two selectors' results as sequences of
  `Item`s, each holding the text of its first `<a>` and first `<span>`.
- File and JSON I/O: the file system, `os.makedirs`, JSON encoding and the
  indentation of the file are reduced to `FileContent`. `Save` writes the
  elements in ascending order, but its contract leaves the order open, as
  `list(set)` does in Python.
- Other JSON in the state file: `FileContent` holds only a list of strings.
  A number or `null` crashes at `len(data)`. A string or an object is read as
  the set of its characters or of its keys. A list holding lists or objects
  crashes at `set(data)`. A file that is not valid UTF-8 raises an error that
  is not caught.
- Message text: the wording, emoji, HTML markup and the URL in the messages
  are presentation. Only the kind of message and the list of new notices are
  modelled.
- Logging: the `print` output and the `datetime` timestamps.
- `Text.IsDigit`: `char.isdigit()` is true for every Unicode digit
  (superscripts, other scripts); the model accepts only the ASCII digits
  `0`-`9`.
- `Text.IsSpace` is Python's whitespace set (`str.isspace`), written out as
  code points. Lone surrogates, which Dafny's `char` cannot hold, are not
  modelled.
- Python compares strings by code point; Dafny's `char` order is the same
  order over Unicode scalar values.
