/** The REST service of server.js with HTTP and file I/O taken away: the bike collection
    and the admin collection are the state, each handler is an operation on it, and
    each handler's error response is an `ApiError`. */
module Catalog {
  import opened Wrappers
  import Seqs
  import Ids
  import Base64
  import Text

  /** A stored bike. `category` is the record's `type` field. */
  datatype Bike = Bike(
    id: int,
    name: string,
    category: string,
    price: int,
    image: string,
    description: string,
    available: bool,
    createdAt: string,
    updatedAt: Option<string>)

  /** The fields `POST /api/bikes` reads from its body; `None` is an absent field. */
  datatype BikeRequest = BikeRequest(
    name: Option<string>,
    category: Option<string>,
    price: Option<int>,
    image: Option<string>,
    description: Option<string>,
    available: Option<bool>)

  /** A `PUT /api/bikes/:id` body: any subset of a bike's fields, `id` included. */
  datatype BikePatch = BikePatch(
    id: Option<int>,
    name: Option<string>,
    category: Option<string>,
    price: Option<int>,
    image: Option<string>,
    description: Option<string>,
    available: Option<bool>,
    createdAt: Option<string>,
    updatedAt: Option<string>)

  /** A stored admin; `password` is the base64 text of the password's bytes. */
  datatype Admin = Admin(id: int, email: string, password: string, createdAt: string)

  /** An entry of `GET /api/admins`: an admin without its password. */
  datatype AdminView = AdminView(id: int, email: string, createdAt: string)

  /** The body of a successful register (status 201) or login (status 200). */
  datatype AdminRef = AdminRef(id: int, email: string)

  type Bytes = seq<Base64.byte>

  /** The error responses of the handlers. */
  datatype ApiError =
    | MissingBikeFields
    | BikeNotFound
    | MissingCredentials
    | AdminLimitReached
    | AdminExists
    | InvalidCredentials
  {
    /** 404 for an unknown bike, 401 for bad credentials, 400 for every rejected request. */
    function Status(): (s: int)
      ensures s == 404 <==> this.BikeNotFound?
      ensures s == 401 <==> this.InvalidCredentials?
      ensures s == 400 <==> !this.BikeNotFound? && !this.InvalidCredentials?
    {
      match this
      case BikeNotFound => 404
      case InvalidCredentials => 401
      case _ => 400
    }

    /** The `error` text of the response body; no two errors share one. */
    function Message(): (m: string)
      ensures m != ""
    {
      match this
      case MissingBikeFields => "Missing required fields"
      case BikeNotFound => "Bike not found"
      case MissingCredentials => "Email and password required"
      case AdminLimitReached => "Admin limit reached. Only 2 admins allowed."
      case AdminExists => "Admin already exists"
      case InvalidCredentials => "Invalid credentials"
    }
  }

  /** A client can tell every handler error apart by its `error` text alone. */
  lemma ApiErrorMessagesDiffer(a: ApiError, b: ApiError)
    requires a != b
    ensures a.Message() != b.Message()
  {
  }

  const DefaultImage: string := "default.png"
  const MaxAdmins: nat := 2

  predicate PresentBytes(p: Option<Bytes>) { p.Some? && p.value != [] }

  // ---------- Bikes ----------

  function IdsOf(bikes: seq<Bike>): seq<int> {
    seq(|bikes|, i requires 0 <= i < |bikes| => bikes[i].id)
  }

  function IdOf(b: Bike): int { b.id }

  function IdIs(id: int): Bike -> bool { (b: Bike) => b.id == id }

  function IdIsNot(id: int): Bike -> bool { (b: Bike) => b.id != id }

  ghost predicate UniqueIds(bikes: seq<Bike>) {
    forall i, j :: 0 <= i < j < |bikes| ==> IdOf(bikes[i]) != IdOf(bikes[j])
  }

  /** The create handler's guard: `!name || !type || price === undefined`. */
  predicate MissingRequired(req: BikeRequest) {
    !Text.Truthy(req.name) || !Text.Truthy(req.category) || req.price.None?
  }

  /** `POST /api/bikes`: rejected with 400 when a required field is missing (a price of 0
      is not missing); otherwise the new record, with the next id, the defaults filled
      in, and the price taken as given (its sign is not checked). */
  function CreateBike(bikes: seq<Bike>, req: BikeRequest, now: string): (r: Result<Bike, ApiError>)
    ensures r.Err? <==> MissingRequired(req)
    ensures r.Err? ==> r.error == MissingBikeFields
    ensures r.Ok? ==>
      && (bikes == [] ==> r.value.id == 1)
      && (forall i :: 0 <= i < |bikes| ==> bikes[i].id < r.value.id)
      && (bikes != [] ==> exists i :: 0 <= i < |bikes| && r.value.id == bikes[i].id + 1)
      && r.value.name == req.name.value && r.value.category == req.category.value
      && r.value.price == req.price.value
      && r.value.image == (if Text.Truthy(req.image) then req.image.value else DefaultImage)
      && r.value.description == (if Text.Truthy(req.description) then req.description.value else "")
      && r.value.available == (req.available != Some(false))
      && r.value.createdAt == now && r.value.updatedAt == None
  {
    if MissingRequired(req) then Err(MissingBikeFields)
    else
      var id := Ids.NextId(IdsOf(bikes));
      assert forall i :: 0 <= i < |bikes| ==> IdsOf(bikes)[i] == bikes[i].id;
      Ok(Bike(
        id, req.name.value, req.category.value, req.price.value,
        if Text.Truthy(req.image) then req.image.value else DefaultImage,
        if Text.Truthy(req.description) then req.description.value else "",
        req.available != Some(false), now, None))
  }

  /** `{ ...bike, ...body, id, updatedAt }`: every field the body carries overrides the
      stored one, then `id` is forced back to the path id and `updatedAt` is stamped. */
  function Merge(b: Bike, patch: BikePatch, id: int, now: string): (m: Bike)
    ensures m.id == id && m.updatedAt == Some(now)
    ensures patch.name.Some? ==> m.name == patch.name.value
    ensures patch.name.None? ==> m.name == b.name
    ensures patch.category.Some? ==> m.category == patch.category.value
    ensures patch.category.None? ==> m.category == b.category
    ensures patch.price.Some? ==> m.price == patch.price.value
    ensures patch.price.None? ==> m.price == b.price
    ensures patch.image.Some? ==> m.image == patch.image.value
    ensures patch.image.None? ==> m.image == b.image
    ensures patch.description.Some? ==> m.description == patch.description.value
    ensures patch.description.None? ==> m.description == b.description
    ensures patch.available.Some? ==> m.available == patch.available.value
    ensures patch.available.None? ==> m.available == b.available
    ensures patch.createdAt.Some? ==> m.createdAt == patch.createdAt.value
    ensures patch.createdAt.None? ==> m.createdAt == b.createdAt
  {
    Bike(
      id,
      patch.name.GetOr(b.name),
      patch.category.GetOr(b.category),
      patch.price.GetOr(b.price),
      patch.image.GetOr(b.image),
      patch.description.GetOr(b.description),
      patch.available.GetOr(b.available),
      patch.createdAt.GetOr(b.createdAt),
      Some(now))
  }

  /** Two bodies applied one after the other, as one body: the later field wins. */
  function Overlay(p1: BikePatch, p2: BikePatch): BikePatch {
    BikePatch(
      if p2.id.Some? then p2.id else p1.id,
      if p2.name.Some? then p2.name else p1.name,
      if p2.category.Some? then p2.category else p1.category,
      if p2.price.Some? then p2.price else p1.price,
      if p2.image.Some? then p2.image else p1.image,
      if p2.description.Some? then p2.description else p1.description,
      if p2.available.Some? then p2.available else p1.available,
      if p2.createdAt.Some? then p2.createdAt else p1.createdAt,
      if p2.updatedAt.Some? then p2.updatedAt else p1.updatedAt)
  }

  /** `PUT /api/bikes/:id`, as the reply and the new collection: 404 and no change when
      no record has the id; otherwise the first record with the id is replaced by its
      merge with the body, which keeps the id, and no other record changes. */
  function UpdateBike(bikes: seq<Bike>, id: int, patch: BikePatch, now: string): (r: (Result<Bike, ApiError>, seq<Bike>))
    ensures r.0.Err? <==> forall i :: 0 <= i < |bikes| ==> bikes[i].id != id
    ensures r.0.Err? ==> r.0.error == BikeNotFound && r.1 == bikes
    ensures r.0.Ok? ==>
      var k := Seqs.FirstIndex(bikes, IdIs(id));
      && 0 <= k < |bikes| && bikes[k].id == id
      && r.0.value == Merge(bikes[k], patch, id, now) && r.0.value.id == id
      && |r.1| == |bikes| && r.1[k] == r.0.value
      && forall i :: 0 <= i < |bikes| && i != k ==> r.1[i] == bikes[i]
  {
    var k := Seqs.FirstIndex(bikes, IdIs(id));
    if k == -1 then (Err(BikeNotFound), bikes)
    else
      var m := Merge(bikes[k], patch, id, now);
      (Ok(m), bikes[k := m])
  }

  /** `DELETE /api/bikes/:id`: no record with the id remains; one that is absent leaves the
      collection as it was. */
  function DeleteBike(bikes: seq<Bike>, id: int): (r: seq<Bike>)
    ensures forall i :: 0 <= i < |r| ==> r[i].id != id && r[i] in bikes
    ensures forall i :: 0 <= i < |bikes| && bikes[i].id != id ==> bikes[i] in r
    ensures (forall i :: 0 <= i < |bikes| ==> bikes[i].id != id) ==> r == bikes
  {
    var r := Seqs.Filter(bikes, IdIsNot(id));
    if forall i :: 0 <= i < |bikes| ==> bikes[i].id != id then
      Seqs.FilterKeepsAll(bikes, IdIsNot(id));
      r
    else r
  }

  /** Deleting keeps the other records in their order: it works piece by piece, and keeps
      every other record exactly as many times as it occurred. */
  lemma DeleteKeepsOthersInOrder(a: seq<Bike>, b: seq<Bike>, id: int, x: Bike)
    ensures DeleteBike(a + b, id) == DeleteBike(a, id) + DeleteBike(b, id)
    ensures multiset(DeleteBike(a + b, id))[x] == if x.id == id then 0 else multiset(a + b)[x]
  {
    Seqs.FilterConcat(a, b, IdIsNot(id));
    Seqs.FilterCount(a + b, IdIsNot(id), x);
  }

  /** Deleting twice is deleting once. */
  lemma DeleteIdempotent(bikes: seq<Bike>, id: int)
    ensures DeleteBike(DeleteBike(bikes, id), id) == DeleteBike(bikes, id)
  {
    Seqs.FilterIdempotent(bikes, IdIsNot(id));
  }

  /** A created record's id is new, so ids stay unique. */
  lemma CreateKeepsIdsUnique(bikes: seq<Bike>, req: BikeRequest, now: string)
    requires UniqueIds(bikes)
    requires CreateBike(bikes, req, now).Ok?
    ensures UniqueIds(bikes + [CreateBike(bikes, req, now).value])
  {
    var s := bikes + [CreateBike(bikes, req, now).value];
    forall i, j | 0 <= i < j < |s| ensures s[i].id != s[j].id {
      if j == |bikes| {
        assert s[i] == bikes[i];
      } else {
        assert s[i] == bikes[i] && s[j] == bikes[j];
      }
    }
  }

  /** An update keeps the id of the record it replaces, so ids stay unique. */
  lemma UpdateKeepsIdsUnique(bikes: seq<Bike>, id: int, patch: BikePatch, now: string)
    requires UniqueIds(bikes)
    ensures UniqueIds(UpdateBike(bikes, id, patch, now).1)
  {
  }

  /** Deleting keeps ids unique. */
  lemma DeleteKeepsIdsUnique(bikes: seq<Bike>, id: int)
    requires UniqueIds(bikes)
    ensures UniqueIds(DeleteBike(bikes, id))
  {
    Seqs.FilterKeepsDistinct(bikes, IdIsNot(id), IdOf);
  }

  /** Merging one body and then another is merging their overlay: a field keeps the later
      body's value where it has one and the earlier body's value otherwise. */
  lemma MergeOverlay(b: Bike, p1: BikePatch, p2: BikePatch, id: int, t1: string, t2: string)
    ensures Merge(Merge(b, p1, id, t1), p2, id, t2) == Merge(b, Overlay(p1, p2), id, t2)
  {
  }

  /** Two successive partial updates of one id amount to one update with both bodies
      overlaid: fields set by the first and not by the second survive. */
  lemma TwoUpdatesCompose(bikes: seq<Bike>, id: int, p1: BikePatch, p2: BikePatch, t1: string, t2: string)
    requires UpdateBike(bikes, id, p1, t1).0.Ok?
    ensures UpdateBike(UpdateBike(bikes, id, p1, t1).1, id, p2, t2) == UpdateBike(bikes, id, Overlay(p1, p2), t2)
  {
    var k := Seqs.FirstIndex(bikes, IdIs(id));
    var once := UpdateBike(bikes, id, p1, t1).1;
    assert forall j :: 0 <= j < k ==> once[j] == bikes[j] && !IdIs(id)(once[j]);
    assert IdIs(id)(once[k]);
    assert Seqs.FirstIndex(once, IdIs(id)) == k;
    MergeOverlay(bikes[k], p1, p2, id, t1, t2);
    assert once[k := Merge(once[k], p2, id, t2)] == bikes[k := Merge(bikes[k], Overlay(p1, p2), id, t2)];
  }

  /** A body carrying only `available`. */
  function AvailabilityPatch(available: bool): BikePatch {
    BikePatch(None, None, None, None, None, None, Some(available), None, None)
  }

  /** A body carrying only `price`. */
  function PricePatch(price: int): BikePatch {
    BikePatch(None, None, None, Some(price), None, None, None, None, None)
  }

  /** Updating bike 5 with `{available: false}` and then with `{price: 75}` leaves it
      unavailable at 75 an hour, with every other field as it was and no other bike
      touched. */
  lemma {:induction false} TwoPartialUpdates(bikes: seq<Bike>, t1: string, t2: string)
    requires exists i :: 0 <= i < |bikes| && bikes[i].id == 5
    ensures
      var first := UpdateBike(bikes, 5, AvailabilityPatch(false), t1);
      var second := UpdateBike(first.1, 5, PricePatch(75), t2);
      var k := Seqs.FirstIndex(bikes, IdIs(5));
      && first.0.Ok? && second.0.Ok?
      && 0 <= k < |bikes| && |second.1| == |bikes|
      && second.1[k].available == false && second.1[k].price == 75
      && second.1[k].name == bikes[k].name && second.1[k].category == bikes[k].category
      && second.1[k].image == bikes[k].image && second.1[k].description == bikes[k].description
      && second.1[k].createdAt == bikes[k].createdAt && second.1[k].updatedAt == Some(t2)
      && forall i :: 0 <= i < |bikes| && i != k ==> second.1[i] == bikes[i]
  {
    TwoUpdatesCompose(bikes, 5, AvailabilityPatch(false), PricePatch(75), t1, t2);
    assert Overlay(AvailabilityPatch(false), PricePatch(75))
      == BikePatch(None, None, None, Some(75), None, None, Some(false), None, None);
  }

  /** Creating "Trail X" (Mountain, 60 an hour) in an empty catalog stores bike 1,
      available, with the default image and an empty description. */
  lemma CreateOnEmptyCatalog(now: string)
    ensures CreateBike([], BikeRequest(Some("Trail X"), Some("Mountain"), Some(60), None, None, None), now)
      == Ok(Bike(1, "Trail X", "Mountain", 60, "default.png", "", true, now, None))
  {
  }

  // ---------- Admins ----------

  function EmailIs(email: string): Admin -> bool { (a: Admin) => a.email == email }

  ghost predicate UniqueEmails(admins: seq<Admin>) {
    forall i, j :: 0 <= i < j < |admins| ==> admins[i].email != admins[j].email
  }

  /** `POST /api/admins/register`, as the record it would store. The checks run in this
      order: missing email or password; the limit of two admins; an admin with the very
      same email. The password's bytes are stored base64-encoded. */
  function RegisterAdmin(admins: seq<Admin>, email: Option<string>, password: Option<Bytes>, now: int, isoNow: string): (r: Result<Admin, ApiError>)
    ensures !Text.Truthy(email) || !PresentBytes(password) ==> r == Err(MissingCredentials)
    ensures Text.Truthy(email) && PresentBytes(password) && |admins| >= MaxAdmins ==> r == Err(AdminLimitReached)
    ensures Text.Truthy(email) && PresentBytes(password) && |admins| < MaxAdmins ==>
      ((exists i :: 0 <= i < |admins| && admins[i].email == email.value) <==> r == Err(AdminExists))
    ensures r.Ok? <==> (Text.Truthy(email) && PresentBytes(password) && |admins| < MaxAdmins
      && forall i :: 0 <= i < |admins| ==> admins[i].email != email.value)
    ensures r.Ok? ==> r.value == Admin(now, email.value, Base64.Encode(password.value), isoNow)
  {
    if !Text.Truthy(email) || !PresentBytes(password) then Err(MissingCredentials)
    else if |admins| >= MaxAdmins then Err(AdminLimitReached)
    else if Seqs.FirstIndex(admins, EmailIs(email.value)) != -1 then Err(AdminExists)
    else Ok(Admin(now, email.value, Base64.Encode(password.value), isoNow))
  }

  /** `POST /api/admins/login`: the first admin with exactly that email, if its stored
      password decodes to the given bytes. An unknown email and a wrong password give the
      one same 401 error. */
  function LoginAdmin(admins: seq<Admin>, email: Option<string>, password: Option<Bytes>): (r: Result<AdminRef, ApiError>)
    ensures !Text.Truthy(email) || !PresentBytes(password) ==> r == Err(MissingCredentials)
    ensures Text.Truthy(email) && PresentBytes(password) && r.Err? ==> r == Err(InvalidCredentials)
    ensures r.Ok? ==> r.value.email == email.value
    ensures r.Ok? ==> exists i :: (0 <= i < |admins| && r.value == AdminRef(admins[i].id, admins[i].email)
      && admins[i].email == email.value && Base64.Decode(admins[i].password) == Some(password.value))
  {
    if !Text.Truthy(email) || !PresentBytes(password) then Err(MissingCredentials)
    else
      var k := Seqs.FirstIndex(admins, EmailIs(email.value));
      if k == -1 then Err(InvalidCredentials)
      else if Base64.Decode(admins[k].password) != Some(password.value) then Err(InvalidCredentials)
      else Ok(AdminRef(admins[k].id, admins[k].email))
  }

  /** `GET /api/admins`: every admin, in order, without its password. */
  function AdminViews(admins: seq<Admin>): (r: seq<AdminView>)
    ensures |r| == |admins|
    ensures forall i :: 0 <= i < |admins| ==>
      r[i].id == admins[i].id && r[i].email == admins[i].email && r[i].createdAt == admins[i].createdAt
  {
    seq(|admins|, i requires 0 <= i < |admins| => AdminView(admins[i].id, admins[i].email, admins[i].createdAt))
  }

  /** The listing does not depend on the stored passwords at all. */
  lemma AdminViewsIgnorePasswords(a: seq<Admin>, b: seq<Admin>)
    requires |a| == |b|
    requires forall i :: 0 <= i < |a| ==> a[i].id == b[i].id && a[i].email == b[i].email && a[i].createdAt == b[i].createdAt
    ensures AdminViews(a) == AdminViews(b)
  {
  }

  /** A successful registration adds one admin and never takes the count above two,
      and keeps emails unique. */
  lemma RegisterKeepsInvariant(admins: seq<Admin>, email: Option<string>, password: Option<Bytes>, now: int, isoNow: string)
    requires |admins| <= MaxAdmins && UniqueEmails(admins)
    requires RegisterAdmin(admins, email, password, now, isoNow).Ok?
    ensures var s := admins + [RegisterAdmin(admins, email, password, now, isoNow).value];
      |s| == |admins| + 1 && |s| <= MaxAdmins && UniqueEmails(s)
  {
    var a := RegisterAdmin(admins, email, password, now, isoNow).value;
    var s := admins + [a];
    forall i, j | 0 <= i < j < |s| ensures s[i].email != s[j].email {
      // at most one admin precedes the new one, so `j` is the new one's index
      assert s[i] == admins[i] && s[j] == a;
      assert !EmailIs(email.value)(admins[i]);
    }
  }

  /** An admin who has just registered can log in with the same email and password. */
  lemma RegisterThenLogin(admins: seq<Admin>, email: Option<string>, password: Option<Bytes>, now: int, isoNow: string)
    requires RegisterAdmin(admins, email, password, now, isoNow).Ok?
    ensures LoginAdmin(admins + [RegisterAdmin(admins, email, password, now, isoNow).value], email, password)
      == Ok(AdminRef(now, email.value))
  {
    var a := RegisterAdmin(admins, email, password, now, isoNow).value;
    Seqs.FirstIndexAppend(admins, a, EmailIs(email.value));
    Base64.DecodeEncode(password.value);
  }

  /** With unique emails, login succeeds exactly when some admin has that email and a
      stored password that decodes to the given one. */
  lemma LoginSucceedsIff(admins: seq<Admin>, email: Option<string>, password: Option<Bytes>)
    requires UniqueEmails(admins)
    ensures LoginAdmin(admins, email, password).Ok? <==>
      Text.Truthy(email) && PresentBytes(password) &&
      exists i :: 0 <= i < |admins| && admins[i].email == email.value && Base64.Decode(admins[i].password) == Some(password.value)
  {
    if Text.Truthy(email) && PresentBytes(password) {
      var k := Seqs.FirstIndex(admins, EmailIs(email.value));
      if exists i :: 0 <= i < |admins| && admins[i].email == email.value && Base64.Decode(admins[i].password) == Some(password.value) {
        var i :| 0 <= i < |admins| && admins[i].email == email.value && Base64.Decode(admins[i].password) == Some(password.value);
        assert EmailIs(email.value)(admins[i]);
        assert k == i;
      }
    }
  }

  /** The bike collection, as `bikes.json` holds it between requests. */
  class BikeStore {
    var bikes: seq<Bike>

    constructor (initial: seq<Bike>)
      ensures bikes == initial
    {
      bikes := initial;
    }

    /** `GET /api/bikes`: the whole collection in stored order. */
    method List() returns (r: seq<Bike>)
      ensures r == bikes
    {
      r := bikes;
    }

    /** `POST /api/bikes`: on success the new record is pushed at the end (status 201). */
    method Create(req: BikeRequest, now: string) returns (r: Result<Bike, ApiError>)
      modifies this
      ensures r == CreateBike(old(bikes), req, now)
      ensures r.Ok? ==> bikes == old(bikes) + [r.value]
      ensures r.Err? ==> bikes == old(bikes)
      ensures UniqueIds(old(bikes)) ==> UniqueIds(bikes)
    {
      r := CreateBike(bikes, req, now);
      if r.Ok? {
        if UniqueIds(bikes) {
          CreateKeepsIdsUnique(bikes, req, now);
        }
        bikes := bikes + [r.value];
      }
    }

    /** `PUT /api/bikes/:id`: the merged record is assigned at the index found. */
    method Update(id: int, patch: BikePatch, now: string) returns (r: Result<Bike, ApiError>)
      modifies this
      ensures (r, bikes) == UpdateBike(old(bikes), id, patch, now)
      ensures |bikes| == |old(bikes)|
      ensures UniqueIds(old(bikes)) ==> UniqueIds(bikes)
    {
      if UniqueIds(bikes) {
        UpdateKeepsIdsUnique(bikes, id, patch, now);
      }
      var idx := Seqs.FirstIndex(bikes, IdIs(id));
      if idx == -1 {
        return Err(BikeNotFound);
      }
      var merged := Merge(bikes[idx], patch, id, now);
      bikes := bikes[idx := merged];
      r := Ok(merged);
    }

    /** `DELETE /api/bikes/:id`: always answers success, whether or not the id existed. */
    method Delete(id: int)
      modifies this
      ensures bikes == DeleteBike(old(bikes), id)
      ensures UniqueIds(old(bikes)) ==> UniqueIds(bikes)
    {
      if UniqueIds(bikes) {
        DeleteKeepsIdsUnique(bikes, id);
      }
      bikes := DeleteBike(bikes, id);
    }
  }

  /** The admin collection, as `admins.json` holds it between requests. */
  class AdminStore {
    var admins: seq<Admin>

    /** What registration maintains: at most two admins, no two with the same email. */
    ghost predicate Valid()
      reads this
    {
      |admins| <= MaxAdmins && UniqueEmails(admins)
    }

    constructor (initial: seq<Admin>)
      requires |initial| <= MaxAdmins && UniqueEmails(initial)
      ensures Valid() && admins == initial
    {
      admins := initial;
    }

    /** `GET /api/admins`. */
    method List() returns (r: seq<AdminView>)
      ensures r == AdminViews(admins)
      ensures forall i :: 0 <= i < |r| ==> r[i].id == admins[i].id && r[i].email == admins[i].email
    {
      r := AdminViews(admins);
    }

    /** `POST /api/admins/register`: on success the new admin is pushed and the reply
        carries only its id and email. */
    method Register(email: Option<string>, password: Option<Bytes>, now: int, isoNow: string) returns (r: Result<AdminRef, ApiError>)
      requires Valid()
      modifies this
      ensures Valid()
      ensures var reg := RegisterAdmin(old(admins), email, password, now, isoNow);
        && (reg.Err? ==> r == Err(reg.error) && admins == old(admins))
        && (reg.Ok? ==> r == Ok(AdminRef(now, email.value)) && admins == old(admins) + [reg.value])
    ensures r.Ok? <==> (Text.Truthy(email) && PresentBytes(password) && |old(admins)| < MaxAdmins
      && forall i :: 0 <= i < |old(admins)| ==> old(admins)[i].email != email.value)
    {
      var reg := RegisterAdmin(admins, email, password, now, isoNow);
      if reg.Err? {
        return Err(reg.error);
      }
      RegisterKeepsInvariant(admins, email, password, now, isoNow);
      admins := admins + [reg.value];
      r := Ok(AdminRef(reg.value.id, reg.value.email));
    }

    /** `POST /api/admins/login`. */
    method Login(email: Option<string>, password: Option<Bytes>) returns (r: Result<AdminRef, ApiError>)
      requires Valid()
      ensures r == LoginAdmin(admins, email, password)
      ensures r.Ok? <==> (Text.Truthy(email) && PresentBytes(password) &&
        exists i :: 0 <= i < |admins| && admins[i].email == email.value && Base64.Decode(admins[i].password) == Some(password.value))
    {
      LoginSucceedsIff(admins, email, password);
      r := LoginAdmin(admins, email, password);
    }
  }
}
