# DocumentsDb: a verified model of the wiki's revision store

The wiki server (`run_server.py`) keeps every document in one in-memory
object, `DocumentsDb`. Its field `_docs` maps a document title to that
document's own dict. That dict maps `str(ts)` (the second of a write, as a
decimal string) to the content written then. It also holds one bookkeeping
entry, `"latest_ts"`, whose value is the integer timestamp of the last write.
The object has four operations: `add`, `get_all_titles`, `get_revisions` and
`get_document`.

The Dafny project models that object as the class `Server.DocumentsDb`:

- `docs: map<string, map<PyValue, PyValue>>` is `_docs`.
- `titles: seq<string>` is the key order of `_docs`, which is first-insertion
  order in Python.
- A ghost `history` records the title of every `add` in call order.

`PyValue = Str(s) | Int(i)` is the Python value held as a key or a value. A
string key never equals an int key, and that is why the `"latest"` selector
fails (see Findings). `add` takes the current second as a parameter `now`.

Modules:

- `Decimal` (`decimal.dfy`): Python's `str` of a non-negative int, its
  inverse, and the round trips between them.
- `InsertionOrder` (`insertion_order.dfy`): the key order of a Python dict,
  built from the history of insertions.
- `Revisions` (`revisions.dfy`): one document's dict, its well-formedness, and
  the two assignments a write makes to it.
- `Server` (`documents_db.dfy`): the store class, its invariant, the corrected
  lookups, and client methods that read the store back after writes.

Lookup is an exact string match on the stored keys. A float time such as
`"1700000000.25"`, a numeral with a leading zero, or a second between two
revisions never finds anything. The tests at run_server_test.py:108-134
expect a nearest-prior match that the code does not perform.
`NonNumericSelectorNotFound`, `LeadingZeroSelectorNotFound` and
`ReadBetweenRevisions` state this.

## Model

| member | source | states |
|---|---|---|
| `Server.DocumentsDb.constructor` | run_server.py:24-25 | a new store has no documents and no titles, and satisfies the invariant |
| `Server.DocumentsDb.Add` | run_server.py:27-36 | returns `now`; the named document's dict becomes `Write` of the old dict (an empty dict for a new title); every other document is unchanged; a new title is appended to the title order and an existing one is not moved; the invariant is kept |
| `Server.AddKeepsInvariant` | run_server.py:27-36 | a write, to a new or an existing title, keeps the title order equal to the first-write order of the history, the titles equal to the keys of `_docs`, and every document's dict well formed |
| `Server.AddKeepsTitleOrder` | run_server.py:29-33 | a write appends its title to the title order exactly when the title is new, which is the first-write order of the extended history |
| `Revisions.Write` | run_server.py:29-35 | after a write the dict holds the content under `str(ts)` and the int `ts` under `"latest_ts"` whatever was there before; it gains only those two keys; every other entry keeps its value; a dict holding only revisions becomes well formed with latest stamp `ts` |
| `Revisions.RevisionKey` | run_server.py:30 | the key `str(ts)` of a revision is never the bookkeeping key `"latest_ts"`, so a write cannot overwrite the marker with content |
| `Revisions.LatestStamp` | run_server.py:31 | in a well-formed dict the stamp under `"latest_ts"` names a stored revision holding string content |
| `Decimal.NatToDecimal` | run_server.py:30 | `str(ts)` is a non-empty string of digits with no leading zero unless it is `"0"`, and it is one digit long exactly when `ts < 10` |
| `Decimal.DecimalToNatOfNatToDecimal` | run_server.py:30 | reading back `str(ts)` gives `ts` |
| `Decimal.NatToDecimalOfDecimalToNat` | run_server.py:30 | every canonical numeral is `str` of its value, so keys made by `str` are exactly the canonical numerals |
| `Decimal.NatToDecimalInjective` | run_server.py:30 | writes in different seconds use different keys |
| `Revisions.WriteOtherSecond` | run_server.py:30 | a write in another second leaves an earlier revision's content as it was; a write in the same second replaces it |
| `InsertionOrder.FirstWritesElements` | run_server.py:38-39 | the title order holds exactly the titles ever written |
| `InsertionOrder.FirstWritesDistinct` | run_server.py:38-39 | the title order holds each title once |
| `InsertionOrder.FirstWritesOrdered` | run_server.py:38-39 | the title order follows the positions of each title's first write in the history |
| `Server.DocumentsDb.GetAllTitles` | run_server.py:38-39 | returns every title of the store exactly once, ordered by the position of its first `add` |
| `Server.TitlesAfterWrites` | run_server.py:29-39 | an empty store lists `[]`; writes to `a`, `b`, `a` list `[a, b]` (or `[a]` when `a == b`): a repeated write neither duplicates nor moves a title |
| `Server.DocumentsDb.GetRevisions` | run_server.py:41-45 | an unknown title raises KeyError; a known one returns the title and the document's whole dict, including the `"latest_ts"` entry holding the latest stamp |
| `Server.DocumentsDb.GetDocument` | run_server.py:47-61 | an unknown title gives `None`; `"latest"` and `""` always give `None`; any other selector gives a result exactly when it is a key of the document, and the result is the title, the selector and the stored value |
| `Server.SentinelSelectorLeaks` | run_server.py:54-61 | the selector `"latest_ts"` returns the stored int stamp as if it were a revision's content |
| `Server.NonNumericSelectorNotFound` | run_server.py:54-55 | a selector holding a non-digit, such as a float time, finds nothing unless it is `"latest_ts"` |
| `Server.LeadingZeroSelectorNotFound` | run_server.py:54-55 | a selector equal to `"0" + str(n)` finds nothing, although it denotes the same number as a stored key |
| `Server.ReadBetweenRevisions` | run_server.py:54-55 | after writes at seconds `now1 < now2`, a second strictly between them finds nothing |
| `Server.PrintedStampIsExactSelector` | run_server.py:51-54 | a returned timestamp, printed by `str`, is neither `"latest"` nor `""`, so it is looked up as an exact key |
| `Server.ReadFirstOfTwoWrites` | run_server.py:27-61 | after two writes to one title, the first timestamp reads back the first content, or the second content when both writes fell in the same second |
| `Server.ReadLatestOfTwoWrites` | run_server.py:27-61 | after two writes to one title, `"latest"` reads `None`; the corrected lookup reads the last call's content and timestamp, even when its second is the smaller one |
| `Server.DocumentsDb.GetDocumentIntended` | run_server.py:51-55 | corrected lookup: `"latest"` and `""` return the revision under `str(latest_ts)` with its content; `"latest_ts"` finds nothing; every other selector behaves as `get_document` |
| `Server.DocumentsDb.GetRevisionsIntended` | run_server.py:41-45 | corrected listing: an unknown title gives `None`; a known one gives exactly the keys of the document's dict other than `"latest_ts"`, each with its stored content |
| `Server.ReadBackAfterAdd` | run_server.py:27-61 | on any valid store, after `add(title, content)` at second `now`, `get_document(title, str(now))` returns that content under that timestamp, and the corrected `"latest"` lookup returns the same document |

## Findings

| source | as written | input that shows it | evidently intended | confidence | as-written member | corrected member |
|---|---|---|---|---|---|---|
| run_server.py:51-55 | `"latest"` and `""` are replaced by the int stored under `"latest_ts"`; the membership test then compares an int with string keys and fails | `add("doc", "v1")` at second 100, then `get_document("doc", "latest")` returns `None` | the revision under `str(latest_ts)`, as run_server_test.py:82-95 expects | high, not executed | `Server.DocumentsDb.GetDocument`, `Server.ReadLatestOfTwoWrites` | `Server.DocumentsDb.GetDocumentIntended` |
| run_server.py:41-45 | an unknown title indexes `_docs` and raises KeyError, so the request fails with a server error | `get_revisions("notexist")` on an empty store | no result, which the handler turns into 404 (run_server.py:95-96), as run_server_test.py:40-42 expects | high, not executed | `Server.DocumentsDb.GetRevisions` | `Server.DocumentsDb.GetRevisionsIntended` |
| run_server.py:31 | the bookkeeping entry lives in the same dict as the revisions, so `get_revisions` lists it and the selector `"latest_ts"` fetches it | `add("doc", "v1")` at second 100; `get_revisions("doc")` lists `"latest_ts": 100`; `get_document("doc", "latest_ts")` returns content `100` | revisions only, with the latest marker kept apart | medium, not executed | `Server.DocumentsDb.GetRevisions`, `Server.SentinelSelectorLeaks` | `Server.DocumentsDb.GetRevisionsIntended`, `Server.DocumentsDb.GetDocumentIntended` |

`GetDocument` and `GetRevisions` model the code as written. The corrected
members are defined beside them on the same state, and the properties the
tests expect are proved about them.

## Left out

- The Flask application, the routes and the `documents` handler
  (run_server.py:3, run_server.py:67-98) are not modelled: they are HTTP
  dispatch, JSON parsing and status-code mapping over a framework.
- `time.time()` and the `int(...)` truncation of it (run_server.py:28) are
  replaced by the parameter `now`.
- Server.DocumentsDb.Add: `now` is a `nat`, so a clock before 1970 is not
  modelled. Python would then print a key with a minus sign.
- Server.DocumentsDb.Add: content is a string. The handler passes whatever JSON
  value the request holds under `"content"`.
- Server.DocumentsDb.GetRevisions: returns the document's dict as a value. In
  Python it returns the live dict, so later writes show through a listing the
  caller still holds. That aliasing is not modelled.
- The key order inside one document's dict, which decides the order of the
  JSON `revisions` object, is not modelled. Each document's dict is a `map`.
  Only the order of titles is kept.
- The `_DEFAULT_DOCUMENTS` seed data and the `__main__` start-up loop
  (run_server.py:6-16, run_server.py:101-104) are process start-up and are not
  modelled.
- `clear`, which run_server_test.py:11 calls before each test, is not a member
  of `DocumentsDb` in run_server.py, so it is not modelled.
- The KeyError that `get_document` would raise for `"latest"` on a document
  without a `"latest_ts"` entry cannot occur: every stored document has one
  (the invariant `WellFormed`).
- Concurrency: the code has no locking, and the model is sequential.
