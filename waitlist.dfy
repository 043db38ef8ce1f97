/** The waitlist endpoints: `POST /api/waitlist` (Join) and
    `GET /api/waitlist` (ListWaitlist). The document store is not modelled:
    its `create_document` and `get_documents` calls are passed in as
    functions from their argument to the id, page or error text they produce. */
module Waitlist {
  import opened Wrappers
  import opened Whitespace
  import opened Records
  import opened Sorting

  const MinAddressLength := 32
  const MaxAddressLength := 60
  const InvalidAddressDetail := "Invalid wallet address"
  const DefaultSource := "unknown"
  /** The page size `list_waitlist` asks for when no `limit` is given. */
  const DefaultLimit := 200

  /** An `HTTPException`: its status code and `detail` text. */
  datatype HttpError = HttpError(status: int, detail: string)

  /** The fields Join writes to the `waitlist` collection. */
  datatype NewEntry = NewEntry(address: string, source: string)

  /** The JSON body `{ok, id}` of a successful join. */
  datatype Joined = Joined(ok: bool, id: string)

  /** The JSON body `{ok, items}` of a successful listing. */
  datatype Listing = Listing(ok: bool, items: seq<Item>)

  /** What one join request does: the entry handed to the store, if any,
      and the reply sent back. */
  datatype JoinTrace = JoinTrace(written: Option<NewEntry>, reply: Result<Joined, HttpError>)

  /** An address the length check accepts, measured after stripping. */
  predicate ValidLength(addr: string)
    ensures ValidLength(addr) ==> addr != []
  {
    MinAddressLength <= |addr| <= MaxAddressLength
  }

  /** `payload.source or "unknown"`: an absent or empty source becomes the
      default; any other value is kept as it is. */
  function SourceOrDefault(source: Option<string>): (r: string)
    ensures r != []
    ensures source == None || source == Some([]) ==> r == DefaultSource
    ensures source.Some? && source.value != [] ==> r == source.value
  {
    match source
    case None => DefaultSource
    case Some(s) => if s == [] then DefaultSource else s
  }

  /** What every entry written by Join satisfies. */
  predicate WellFormedEntry(e: NewEntry)
  {
    ValidLength(e.address) && NoEdgeSpace(e.address) && e.source != []
  }

  /** `join_waitlist`: strip the address, reject it unless its length lies
      in [32, 60], otherwise hand `{address, source}` to `create` and report
      the id it returns, or its error as a 500. */
  function Join(address: string, source: Option<string>,
                create: NewEntry -> Result<string, string>): (t: JoinTrace)
    ensures t.written.Some? <==> ValidLength(Strip(address))
    ensures t.written.None? ==> t.reply == Failure(HttpError(400, InvalidAddressDetail))
    ensures t.written.Some? ==>
              t.written.value.address == Strip(address) &&
              t.written.value.source == SourceOrDefault(source)
    ensures t.written.Some? ==>
              match create(t.written.value)
              case Success(id) => t.reply == Success(Joined(true, id))
              case Failure(e) => t.reply == Failure(HttpError(500, e))
  {
    var addr := Strip(address);
    if !ValidLength(addr) then
      JoinTrace(None, Failure(HttpError(400, InvalidAddressDetail)))
    else
      var entry := NewEntry(addr, SourceOrDefault(source));
      match create(entry)
      case Success(id) => JoinTrace(Some(entry), Success(Joined(true, id)))
      case Failure(e) => JoinTrace(Some(entry), Failure(HttpError(500, e)))
  }

  /** Every entry Join hands to the store has an address of valid length
      with no surrounding whitespace, obtained from the submitted address by
      removing only whitespace at its two ends, and a non-empty source. */
  lemma JoinWritesWellFormed(address: string, source: Option<string>,
                             create: NewEntry -> Result<string, string>)
    returns (w1: string, w2: string)
    ensures var t := Join(address, source, create);
            t.written.Some? ==>
              WellFormedEntry(t.written.value) &&
              AllSpace(w1) && AllSpace(w2) &&
              address == w1 + t.written.value.address + w2
  {
    w1, w2 := StripSplits(address);
  }

  /** Join succeeds exactly when the address is valid and the store accepts
      the entry; a success carries the store's id and nothing else, a
      failure has status 400 or 500. */
  lemma JoinOutcome(address: string, source: Option<string>,
                    create: NewEntry -> Result<string, string>)
    ensures var t := Join(address, source, create);
            (t.reply.Success? <==>
               ValidLength(Strip(address)) &&
               create(NewEntry(Strip(address), SourceOrDefault(source))).Success?) &&
            (t.reply.Success? ==>
               t.reply.value.ok &&
               t.reply.value.id == create(t.written.value).value) &&
            (t.reply.Failure? ==> t.reply.error.status in {400, 500})
  {
  }

  /** Given the same store answer, surrounding whitespace in the submitted
      address changes neither what is written nor what is replied. */
  lemma JoinIgnoresPadding(w1: string, address: string, w2: string, source: Option<string>,
                           create: NewEntry -> Result<string, string>)
    requires AllSpace(w1) && AllSpace(w2)
    ensures Join(w1 + address + w2, source, create) == Join(address, source, create)
  {
    StripIgnoresPadding(w1, address, w2);
  }

  /** A five-character address is rejected with 400 before the store is
      reached, whatever the store would have done. */
  lemma JoinRejectsShortAddress(create: NewEntry -> Result<string, string>)
    ensures Join("short", None, create) ==
            JoinTrace(None, Failure(HttpError(400, InvalidAddressDetail)))
  {
  }

  /** Forty `A`s with source `"twitter"` are stored unchanged, and the reply
      carries the store's id. */
  lemma JoinFortyCharacterAddress(create: NewEntry -> Result<string, string>, id: string)
    requires create(NewEntry(seq(40, _ => 'A'), "twitter")) == Success(id)
    ensures Join(seq(40, _ => 'A'), Some("twitter"), create) ==
            JoinTrace(Some(NewEntry(seq(40, _ => 'A'), "twitter")), Success(Joined(true, id)))
  {
    var a := seq(40, _ => 'A');
    StripCharacterized([], a, []);
    assert [] + a + [] == a;
  }

  /** `list_waitlist`: fetch a page of at most `limit` records from the
      store, project each to `{id, address, source, created_at}`, sort the
      page newest first (stably, missing timestamps counting as 0) and return
      it; a store error becomes a 500 carrying its text. */
  method ListWaitlist(query: int -> Result<seq<Doc>, string>, limit: int := DefaultLimit)
    returns (r: Result<Listing, HttpError>)
    ensures query(limit).Failure? ==> r == Failure(HttpError(500, query(limit).error))
    ensures query(limit).Success? ==>
              r.Success? && r.value.ok &&
              var page := Project(query(limit).value);
              var items := r.value.items;
              |items| == |query(limit).value| &&
              multiset(items) == multiset(page) &&
              SortedDesc(items) &&
              (forall v :: WithKey(items, v) == WithKey(page, v)) &&
              items == SortDesc(page)
    ensures query(limit) == Success([]) ==> r == Success(Listing(true, []))
  {
    var fetched := query(limit);
    if fetched.Failure? {
      return Failure(HttpError(500, fetched.error));
    }
    var page := Project(fetched.value);
    var out := new Item[|page|](k requires 0 <= k < |page| => page[k]);
    assert out[..] == page;
    SortByKeyDesc(out);
    var items := out[..];
    assert items == SortDesc(page);
    SortDescSorted(page);
    SortDescPermutation(page);
    forall v
      ensures WithKey(items, v) == WithKey(page, v)
    {
      SortDescStable(page, v);
    }
    r := Success(Listing(true, items));
  }

  /** In a listing, an item without a timestamp comes after every item with
      a positive one. */
  lemma MissingTimestampSortsLast(items: seq<Item>, i: int, j: int)
    requires SortedDesc(items)
    requires 0 <= i < |items| && 0 <= j < |items|
    requires items[i].createdAt == None
    requires items[j].createdAt.Some? && items[j].createdAt.value > 0
    ensures j < i
  {
  }
}
