/** The browser's in-memory bike cache of app.js and how each remote bike call patches it.
    A remote call is given as the reply the server sent, so the cache logic can be related
    to the server's own operations on the same collection. */
module ClientSync {
  import opened Wrappers
  import Seqs
  import Catalog
  import Text

  type Bike = Catalog.Bike

  /** What a remote call delivers to the client: the decoded body or the error text. */
  type Reply<T> = Result<T, string>

  /** The client's reading of a server outcome: `apiCall` throws with the body's `error`. */
  function AsReply<T>(r: Result<T, Catalog.ApiError>): (q: Reply<T>)
    ensures r.Ok? <==> q.Ok?
    ensures r.Ok? ==> q.value == r.value
    ensures r.Err? ==> q.error == r.error.Message()
  {
    match r
    case Ok(v) => Ok(v)
    case Err(e) => Err(e.Message())
  }

  /** Why a cache operation failed: a client-side pre-check, or the remote error. */
  datatype ClientError = NameTypeRequired | InvalidPrice | Remote(message: string)
  {
    /** The thrown error's message: the pre-checks' own texts, or the server's passed through. */
    function Message(): (m: string)
      ensures this.Remote? ==> m == this.message
      ensures !this.Remote? ==> m != ""
    {
      match this
      case NameTypeRequired => "Bike name and type required"
      case InvalidPrice => "Invalid price"
      case Remote(m) => m
    }
  }

  /** `getBikes`: a successful fetch replaces the cache; a failed one keeps it. Either way
      the caller gets the cache's new value. */
  function AfterFetch(cache: seq<Bike>, fetched: Reply<seq<Bike>>): (c: seq<Bike>)
    ensures fetched.Ok? ==> c == fetched.value
    ensures fetched.Err? ==> c == cache
  {
    if fetched.Ok? then fetched.value else cache
  }

  /** The checks `addBike` makes before any request: a name and a type, and a price that
      is not negative (an absent price passes, since `undefined < 0` is false). */
  function AddPrecheck(req: Catalog.BikeRequest): (r: Option<ClientError>)
    ensures r == Some(NameTypeRequired) <==> !Text.Truthy(req.name) || !Text.Truthy(req.category)
    ensures r == Some(InvalidPrice) <==>
      Text.Truthy(req.name) && Text.Truthy(req.category) && req.price.Some? && req.price.value < 0
    ensures r.None? <==>
      Text.Truthy(req.name) && Text.Truthy(req.category) && !(req.price.Some? && req.price.value < 0)
  {
    if !Text.Truthy(req.name) || !Text.Truthy(req.category) then Some(NameTypeRequired)
    else if req.price.Some? && req.price.value < 0 then Some(InvalidPrice)
    else None
  }

  /** `addBike`, as its outcome and the new cache. A failed pre-check sends nothing; when
      the request is sent, the created bike from the reply is pushed at the end. */
  function AfterAdd(cache: seq<Bike>, req: Catalog.BikeRequest, reply: Reply<Bike>): (r: (Result<Bike, ClientError>, seq<Bike>))
    ensures AddPrecheck(req).Some? ==> r == (Err(AddPrecheck(req).value), cache)
    ensures AddPrecheck(req).None? && reply.Err? ==> r == (Err(Remote(reply.error)), cache)
    ensures AddPrecheck(req).None? && reply.Ok? ==> r == (Ok(reply.value), cache + [reply.value])
  {
    var pre := AddPrecheck(req);
    if pre.Some? then (Err(pre.value), cache)
    else if reply.Err? then (Err(Remote(reply.error)), cache)
    else (Ok(reply.value), cache + [reply.value])
  }

  /** `updateBike`: after a successful PUT, the first cached bike with the request's id is
      replaced by the reply; when none has it, or the PUT failed, the cache is unchanged. */
  function AfterUpdate(cache: seq<Bike>, id: int, reply: Reply<Bike>): (r: (Result<Bike, ClientError>, seq<Bike>))
    ensures reply.Err? ==> r == (Err(Remote(reply.error)), cache)
    ensures reply.Ok? ==> r.0 == Ok(reply.value) && |r.1| == |cache|
    ensures reply.Ok? ==>
      var k := Seqs.FirstIndex(cache, Catalog.IdIs(id));
      && (k == -1 ==> r.1 == cache)
      && (k != -1 ==> r.1[k] == reply.value && forall i :: 0 <= i < |cache| && i != k ==> r.1[i] == cache[i])
  {
    if reply.Err? then (Err(Remote(reply.error)), cache)
    else
      var k := Seqs.FirstIndex(cache, Catalog.IdIs(id));
      (Ok(reply.value), if k == -1 then cache else cache[k := reply.value])
  }

  /** `removeBike`: after a successful DELETE every cached bike with the id is dropped,
      the rest in order; a failed DELETE leaves the cache. */
  function AfterRemove(cache: seq<Bike>, id: int, reply: Reply<()>): (r: (Result<(), ClientError>, seq<Bike>))
    ensures reply.Err? ==> r == (Err(Remote(reply.error)), cache)
    ensures reply.Ok? ==> r.0 == Ok(()) && r.1 == Catalog.DeleteBike(cache, id)
    ensures reply.Ok? ==> forall i :: 0 <= i < |r.1| ==> r.1[i].id != id
  {
    if reply.Err? then (Err(Remote(reply.error)), cache)
    else (Ok(()), Catalog.DeleteBike(cache, id))
  }

  /** The body `updateBike` sends: the whole edited bike, every field present. */
  function PatchOf(b: Bike): Catalog.BikePatch {
    Catalog.BikePatch(Some(b.id), Some(b.name), Some(b.category), Some(b.price), Some(b.image),
      Some(b.description), Some(b.available), Some(b.createdAt), b.updatedAt)
  }

  // ---------- The cache follows the server ----------

  /** A cache equal to the server's collection stays equal to it across an add: the pushed
      reply is the very record the server appended, and a rejected add changes neither. */
  lemma AddKeepsCacheInSync(store: seq<Bike>, req: Catalog.BikeRequest, now: string)
    requires AddPrecheck(req).None?
    ensures var created := Catalog.CreateBike(store, req, now);
      AfterAdd(store, req, AsReply(created)).1 == (if created.Ok? then store + [created.value] else store)
  {
  }

  /** The same for an update: replacing the cached record with the server's reply yields
      exactly the server's new collection, found or not. */
  lemma UpdateKeepsCacheInSync(store: seq<Bike>, edited: Bike, now: string)
    ensures var (reply, after) := Catalog.UpdateBike(store, edited.id, PatchOf(edited), now);
      AfterUpdate(store, edited.id, AsReply(reply)).1 == after
  {
    var k := Seqs.FirstIndex(store, Catalog.IdIs(edited.id));
    if k != -1 {
      assert Catalog.UpdateBike(store, edited.id, PatchOf(edited), now).1
        == store[k := Catalog.Merge(store[k], PatchOf(edited), edited.id, now)];
    }
  }

  /** The same for a delete, which the server always answers with success. */
  lemma RemoveKeepsCacheInSync(store: seq<Bike>, id: int)
    ensures AfterRemove(store, id, Ok(())).1 == Catalog.DeleteBike(store, id)
  {
  }

  /** Starting from the server's collection, a failed fetch leaves the previous view and a
      successful one shows the collection `GET /api/bikes` lists. */
  lemma FetchShowsServer(cache: seq<Bike>, store: seq<Bike>)
    ensures AfterFetch(cache, Ok(store)) == store
    ensures AfterFetch(cache, Err("Failed to fetch bikes")) == cache
  {
  }

  /** `bikesCache`, the module-level array every bike call reassigns or patches. */
  class BikeCache {
    var bikes: seq<Bike>

    /** The page starts with an empty cache. */
    constructor ()
      ensures bikes == []
    {
      bikes := [];
    }

    method GetBikes(fetched: Reply<seq<Bike>>) returns (r: seq<Bike>)
      modifies this
      ensures bikes == AfterFetch(old(bikes), fetched) && r == bikes
    {
      if fetched.Ok? {
        bikes := fetched.value;
      }
      r := bikes;
    }

    method AddBike(req: Catalog.BikeRequest, reply: Reply<Bike>) returns (r: Result<Bike, ClientError>)
      modifies this
      ensures (r, bikes) == AfterAdd(old(bikes), req, reply)
    {
      var pre := AddPrecheck(req);
      if pre.Some? {
        return Err(pre.value);
      }
      if reply.Err? {
        return Err(Remote(reply.error));
      }
      bikes := bikes + [reply.value];
      r := Ok(reply.value);
    }

    method UpdateBike(id: int, reply: Reply<Bike>) returns (r: Result<Bike, ClientError>)
      modifies this
      ensures (r, bikes) == AfterUpdate(old(bikes), id, reply)
    {
      if reply.Err? {
        return Err(Remote(reply.error));
      }
      var idx := Seqs.FirstIndex(bikes, Catalog.IdIs(id));
      if idx > -1 {
        bikes := bikes[idx := reply.value];
      }
      r := Ok(reply.value);
    }

    method RemoveBike(id: int, reply: Reply<()>) returns (r: Result<(), ClientError>)
      modifies this
      ensures (r, bikes) == AfterRemove(old(bikes), id, reply)
    {
      if reply.Err? {
        return Err(Remote(reply.error));
      }
      bikes := Catalog.DeleteBike(bikes, id);
      r := Ok(());
    }
  }
}
