# Waitlist backend: a Dafny model of the join and list endpoints

The backend collects waitlist signups (wallet addresses) over HTTP and lists
them. Its only logic lives in two handlers of `main.py`:

- `POST /api/waitlist` (`join_waitlist`): strip the submitted address with
  Python's `str.strip()`, reject it with HTTP 400 `"Invalid wallet address"`
  unless its stripped length lies in [32, 60], otherwise write
  `{address, source or "unknown"}` to the `waitlist` collection and reply
  `{ok: true, id}`; a store exception becomes HTTP 500 carrying its text.
- `GET /api/waitlist` (`list_waitlist`): fetch up to `limit` records,
  project each to `{id, address, source, created_at}` (any field may be
  missing), sort the page in place newest first with
  `out.sort(key=created_at or 0, reverse=True)`, and reply `{ok: true, items}`;
  a store exception becomes HTTP 500.

Files:

- `wrappers.dfy` — `Option` and `Result`.
- `whitespace.dfy` — `str.strip()`: Python's whitespace set (`str.isspace()`,
  29 code points); the forward and backward scans that find the bounds of
  the stripped slice, as CPython's strip does; and the lemmas that the
  stripped string is the unique core of its input without edge whitespace.
- `records.dfy` — the stored record `Doc` (every field optional), the listing
  `Item`, the sort key `Key` (`created_at or 0`) and the projection.
- `sorting.dfy` — the ordering: a reference stable descending sort
  `SortDesc` (insertion of each item after all items with a key at least as
  large), its sortedness, permutation and stability lemmas, the uniqueness
  lemma `StableSortIsSortDesc` (every sorted arrangement that keeps equal-key
  items in input order equals `SortDesc`; this is why Python's TimSort and the
  insertion sort here give the same list), and `SortByKeyDesc`, an in-place
  insertion sort on an array proved to leave `SortDesc` of its old contents.
- `waitlist.dfy` — `Join`, `ListWaitlist` and their lemmas.

The document store is not part of this model. `create_document` is the
parameter `create: NewEntry -> Result<string, string>` (the id, or the
exception's text) and `get_documents` is `query: int -> Result<seq<Doc>, string>`
applied to `limit`. `Join` returns, beside its reply, the entry it handed to
the store (`None` when it never called it), so "the store is not called on
an invalid address" is a statement about the result.

Dafny characters are Unicode scalar values, so for every address made of
such values `|s|` counts what Python's `len` counts; strings holding a lone
surrogate are outside the model (see below). A stored `_id` is held as the text `str()` gives it; a record
without `_id` lists as `"None"`, which is what `str(None)` yields.
`created_at` is an integer; `created_at or 0` maps a missing value to 0 and
an integer 0 to itself, so the key is the timestamp or 0.

The handlers pass the store's id and page through unchanged. The model
therefore states that the id is exactly the store's and that the listing has
exactly as many items as the page. Nothing here bounds the page by `limit`
or makes the id non-empty.

## Model

| member | source | states |
|---|---|---|
| Whitespace.IsSpace | main.py:37 | the characters strip removes: the 29 code points for which `str.isspace()` holds (bidirectional class WS, B or S, or general category Zs), all between U+0009 and U+3000; U+180E, U+200B and U+FEFF are not among them |
| Whitespace.SkipForward | main.py:37 | the scan stops at the first non-whitespace index at or after its start (or the end), and everything it passes is whitespace |
| Whitespace.SkipBackward | main.py:37 | the backward scan never goes below its lower bound, passes only whitespace, and stops after a non-whitespace character or at the bound |
| Whitespace.StripBounds | main.py:37 | the bounds of `addr.strip()`: only whitespace lies outside them and the slice between is empty or starts and ends with non-whitespace |
| Whitespace.Strip | main.py:37 | `addr.strip()` is no longer than its input and neither starts nor ends with whitespace |
| Whitespace.StripAt | main.py:37 | any bounds with only whitespace outside and no edge whitespace inside delimit exactly what `Strip` returns |
| Whitespace.StripSplits | main.py:37 | the input is the stripped value with whitespace-only text before and after it: the inner content is unchanged |
| Whitespace.StripCharacterized | main.py:37 | for whitespace-only `w1`, `w2` and a core `r` without edge whitespace, stripping `w1 + r + w2` gives exactly `r` |
| Whitespace.StripIdempotent | main.py:37 | stripping an already stripped string changes nothing |
| Whitespace.StripIgnoresPadding | main.py:37 | adding whitespace on either side of the input does not change the stripped value |
| Whitespace.StripUnicodeExamples | main.py:37 | U+00A0 and U+3000 around `abc` are stripped; U+200B, which is not Python whitespace, is kept |
| Waitlist.ValidLength | main.py:38 | the accepted lengths are 32 to 60 inclusive, so an accepted address is never empty |
| Waitlist.SourceOrDefault | main.py:41 | `source or "unknown"` is `"unknown"` when the source is absent or empty and the supplied value otherwise; it is never empty |
| Waitlist.Join | main.py:36-44 | the store is called exactly when the stripped length is in [32, 60]; otherwise the reply is 400 "Invalid wallet address"; the stored entry is the stripped address with the defaulted source; a store id becomes `{ok: true, id}` with that id, a store error a 500 with its text |
| Waitlist.JoinWritesWellFormed | main.py:37-41 | every entry written has an address of length 32 to 60 with no surrounding whitespace, equal to the submitted address minus whitespace at its two ends, and a non-empty source |
| Waitlist.JoinOutcome | main.py:38-44 | a join succeeds if and only if the address is valid and the store accepts the entry; success carries `ok = true` and the store's id; every failure has status 400 or 500 |
| Waitlist.JoinIgnoresPadding | main.py:37 | given the same store answer, surrounding whitespace in the submitted address changes neither what is written nor what is replied |
| Waitlist.JoinRejectsShortAddress | main.py:37-39 | joining with `"short"` replies 400 "Invalid wallet address" and writes nothing |
| Waitlist.JoinFortyCharacterAddress | main.py:37-42 | joining with forty `A`s and source `"twitter"` writes exactly that address and source and replies `{ok: true, id}` with the store's id |
| Waitlist.ListWaitlist | main.py:48-64 | `limit` defaults to 200; a store error gives a 500 with its text; otherwise `ok = true` and the items have as many elements as the page, are a permutation of the projected records, are in non-increasing order of `created_at or 0`, keep store order among equal keys, and equal the reference sort of the projected page; an empty page gives `{ok: true, items: []}` |
| Records.Key | main.py:61 | the key `created_at or 0` is 0 exactly when the timestamp is missing or 0, and the timestamp itself when present |
| Records.IdText | main.py:53 | `str(d.get("_id"))` is `"None"` for a record without `_id` and the id's text otherwise |
| Records.ProjectDoc | main.py:52-57 | the item's `id` is the id's text and its `address`, `source` and `created_at` are copied from the record, missing or not |
| Records.Project | main.py:51-59 | one item per record, in store order, each the projection of the record at the same position (every field copied, a missing `_id` listed as `"None"`) |
| Sorting.SortDesc | main.py:61 | the reference newest-first sort: each item inserted after every item whose key is at least its own; it keeps the length of its input |
| Waitlist.MissingTimestampSortsLast | main.py:61 | in a listing, an item without `created_at` comes after every item whose `created_at` is positive |
| Sorting.SortByKeyDesc | main.py:61 | sorting the array in place leaves the reference stable descending sort of its old contents |
| Sorting.InsertLast | main.py:61 | one in-place insertion step leaves the sorted prefix extended by the next item at its stable position and the rest unchanged |
| Sorting.SortDescSorted | main.py:61 | the reference sort yields keys that never increase |
| Sorting.SortDescPermutation | main.py:61 | the reference sort keeps the length and the multiset of items |
| Sorting.SortDescStable | main.py:61 | for every key, the items with that key appear in the sorted list in the same order as in the input |
| Sorting.SortedStableUnique | main.py:61 | two sorted lists that agree on the ordered items of every key are equal |
| Sorting.StableSortIsSortDesc | main.py:61 | any sorted list that keeps every key's items in input order (the output of any stable sort with `reverse=True`) equals the reference sort |

## Left out

- `read_root` and `hello` (main.py:20-27) return constant messages.
- The `/test` endpoint (main.py:67-100) inspects the database client and environment variables and formats exception text: I/O.
- CORS middleware (main.py:11-17) and the uvicorn start-up with `PORT` (main.py:103-106) are framework set-up.
- Request parsing into `WaitlistIn` (main.py:30-32) belongs to pydantic: `address` is taken as a string and `source` as an optional string. Since `address` is always a string, `payload.address or ""` only maps `""` to `""` and is modelled as the address itself.
- The `database` module is not part of this model: the id a store assigns, whether ids are distinct across joins, and the store's enforcement of `limit` are store-defined and appear only as the `create` and `query` parameters.
- Exceptions other than the store's are not modelled: a record that is not a mapping, or a `created_at` that is a `datetime` compared with the fallback `0` (a `TypeError`, hence a 500), cannot arise with integer timestamps.
- The `limit` query parameter is taken as an integer: the framework's parsing of it, and its rejection of a non-integer value, are not modelled; its default of 200 is `DefaultLimit`.
- Strings holding a lone surrogate code point (which a JSON `\ud800` escape can produce) cannot be represented as Dafny strings, so addresses containing one are not modelled.
- Timestamps are integers, not dates; no other value is treated as falsy.
- Concurrent requests are not modelled; each handler is one sequential request.
