/** The records the waitlist reads from and writes to the document store. */
module Records {
  import opened Wrappers

  /** A record as the schemaless store returns it: every field may be absent.
      `id` holds the text form (`str`) of the store-assigned `_id`. */
  datatype Doc = Doc(id: Option<string>, address: Option<string>,
                     source: Option<string>, createdAt: Option<int>)

  /** One element of the listing's `items`. */
  datatype Item = Item(id: string, address: Option<string>,
                       source: Option<string>, createdAt: Option<int>)

  /** The sort key `created_at or 0`: a missing (or zero) timestamp counts as 0. */
  function Key(it: Item): (r: int)
    ensures r == 0 <==> it.createdAt == None || it.createdAt == Some(0)
    ensures it.createdAt.Some? ==> r == it.createdAt.value
  {
    match it.createdAt
    case None => 0
    case Some(t) => t
  }

  /** `str(d.get("_id"))`: the id's text, or `"None"` when the record has none. */
  function IdText(id: Option<string>): (r: string)
    ensures id.None? ==> r == "None"
    ensures id.Some? ==> r == id.value
  {
    match id
    case None => "None"
    case Some(s) => s
  }

  /** The projection of one stored record to a listing item. */
  function ProjectDoc(d: Doc): (it: Item)
    ensures it.id == IdText(d.id)
    ensures it.address == d.address && it.source == d.source && it.createdAt == d.createdAt
  {
    Item(IdText(d.id), d.address, d.source, d.createdAt)
  }

  /** The list comprehension over the fetched page, in store order. */
  function Project(docs: seq<Doc>): (items: seq<Item>)
    ensures |items| == |docs|
    ensures forall k :: 0 <= k < |docs| ==> items[k] == ProjectDoc(docs[k])
  {
    seq(|docs|, k requires 0 <= k < |docs| => ProjectDoc(docs[k]))
  }
}
