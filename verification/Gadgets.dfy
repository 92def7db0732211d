/** The gadget controller: gadget records in a keyed store, moved between the four
    statuses by create, list, update, decommission ("remove") and self-destruct.
    Every handler answers 400 on any failure; the reply carries the status code the
    client receives and the store as it is once the handler has finished. */
module Gadgets {
  import opened Common

  type Id = string

  /** Milliseconds since the epoch, as held by a JavaScript `Date`. */
  type Timestamp = int

  datatype Status = AVAILABLE | DEPLOYED | DECOMMISSIONED | DESTROYED

  datatype Gadget = Gadget(id: Id, name: string, status: Status, decommissionedOn: Option<Timestamp>)

  /** Every record is filed under its own id. */
  predicate WellKeyed(s: map<Id, Gadget>)
  {
    forall k :: k in s ==> s[k].id == k
  }

  /** The gadget table: each row is found under its own id. */
  type Store = s: map<Id, Gadget> | WellKeyed(s) witness map[]

  /** What a handler threw (and so the message of its 400 reply). */
  datatype GadgetError =
    | CodenameNotGenerated
    | NotCreated
    | InvalidStatus(given: string)
    | NoneFound
    | IdRequired
    | NotFound(id: Id)
    | ConfirmationRequired

  datatype Reply<T> = Reply(code: nat, store: Store, body: Result<T, GadgetError>)

  /** The spelling of a status in the database enum and in requests. */
  function StatusName(st: Status): string
  {
    match st
    case AVAILABLE => "AVAILABLE"
    case DEPLOYED => "DEPLOYED"
    case DECOMMISSIONED => "DECOMMISSIONED"
    case DESTROYED => "DESTROYED"
  }

  /** Reads a status sent by a client; any other spelling is refused by the
      database layer. */
  function ParseStatus(name: string): (st: Option<Status>)
    ensures st.Some? ==> StatusName(st.value) == name
  {
    if name == "AVAILABLE" then Some(AVAILABLE)
    else if name == "DEPLOYED" then Some(DEPLOYED)
    else if name == "DECOMMISSIONED" then Some(DECOMMISSIONED)
    else if name == "DESTROYED" then Some(DESTROYED)
    else None
  }

  /** Parsing is the exact inverse of spelling: a string is accepted if and only if
      it is the name of a status, and then it reads back as that status. */
  lemma ParseStatusIff(name: string, st: Status)
    ensures ParseStatus(name) == Some(st) <==> StatusName(st) == name
  {
  }

  /** Names of all gadgets in the store, the input of the codename generator. */
  function Names(s: Store): (names: set<string>)
    ensures forall k :: k in s ==> s[k].name in names
    ensures forall n :: n in names ==> exists k :: k in s && s[k].name == n
  {
    set k | k in s :: s[k].name
  }

  /** Files a new record under its id: one more key, every old row kept. */
  function Insert(s: Store, g: Gadget): (s': Store)
    requires g.id !in s
    ensures s'.Keys == s.Keys + {g.id}
    ensures |s'| == |s| + 1
    ensures s'[g.id] == g
    ensures forall k :: k in s ==> s'[k] == s[k]
  {
    var s' := s[g.id := g];
    assert s'.Keys == s.Keys + {g.id};
    assert |s'.Keys| == |s.Keys| + 1;
    s'
  }

  /** POST /gadgets. The codename generator is shown the names of all existing
      gadgets; a falsy codename aborts the call. The id the database assigns comes
      from `freshId`; an id already in use makes the insert fail. */
  function CreateGadget(s: Store, codename: set<string> -> Option<string>, freshId: set<Id> -> Id): (r: Reply<Gadget>)
    ensures r.body.Err? ==> r.code == BadRequest400 && r.store == s
    ensures !Truthy(codename(Names(s))) ==> r.body == Err(CodenameNotGenerated)
    ensures r.body.Err? <==> !Truthy(codename(Names(s))) || freshId(s.Keys) in s
    ensures r.body.Ok? ==>
      var g := r.body.value;
      && r.code == Created201
      && g.id == freshId(s.Keys) && g.id !in s
      && g.name == codename(Names(s)).value
      && g.status == AVAILABLE
      && g.decommissionedOn == None
      && r.store.Keys == s.Keys + {g.id}
      && |r.store| == |s| + 1
      && r.store[g.id] == g
      && (forall k :: k in s ==> r.store[k] == s[k])
  {
    var name := codename(Names(s));
    if !Truthy(name) then Reply(BadRequest400, s, Err(CodenameNotGenerated))
    else
      var id := freshId(s.Keys);
      if id in s then Reply(BadRequest400, s, Err(NotCreated))
      else
        var g := Gadget(id, name.value, AVAILABLE, None);
        Reply(Created201, Insert(s, g), Ok(g))
  }

  /** The fixed keys of a listing entry, written after the computed `[name]` key. */
  const FixedKeys: set<string> := {"id", "Status", "Decommissioned On"}

  /** One entry of the listing: the key naming the gadget (it holds the cosmetic
      success figure), id, status and decommission date. A gadget whose name is one
      of the fixed keys has that key overwritten, so its entry names nothing. */
  datatype Listing = Listing(nameKey: Option<string>, id: Id, status: Status, decommissionedOn: Option<Timestamp>)

  function ListingOf(g: Gadget): (l: Listing)
    ensures l.nameKey.None? <==> g.name in FixedKeys
    ensures l.nameKey.Some? ==> l.nameKey.value == g.name
    ensures l.id == g.id && l.status == g.status && l.decommissionedOn == g.decommissionedOn
  {
    var nameKey := if g.name in FixedKeys then None else Some(g.name);
    Listing(nameKey, g.id, g.status, g.decommissionedOn)
  }

  /** The `?status=` query: a falsy value means "no filter", anything else must
      name a status. */
  function StatusFilter(query: Option<string>): (f: Result<Option<Status>, GadgetError>)
    ensures !Truthy(query) ==> f == Ok(None)
    ensures Truthy(query) ==>
      (f.Ok? <==> ParseStatus(query.value).Some?) &&
      (f.Ok? ==> f.value.Some? && StatusName(f.value.value) == query.value)
  {
    if !Truthy(query) then Ok(None)
    else match ParseStatus(query.value)
      case None => Err(InvalidStatus(query.value))
      case Some(st) => Ok(Some(st))
  }

  /** The keys of the gadgets a filter selects: all of them without a filter, the
      ones whose status equals the filter otherwise. */
  function Matching(s: Store, filter: Option<Status>): (m: set<Id>)
    ensures m <= s.Keys
    ensures filter.None? ==> m == s.Keys
    ensures filter.Some? ==> forall k :: k in s ==> (k in m <==> s[k].status == filter.value)
  {
    set k | k in s && (filter.None? || s[k].status == filter.value)
  }

  /** The ids a listing mentions. */
  function ListedIds(out: seq<Listing>): set<Id>
  {
    set i | 0 <= i < |out| :: out[i].id
  }

  /** `out` describes exactly the gadgets whose keys are in `m`, one entry each. */
  predicate Enumerates(out: seq<Listing>, s: Store, m: set<Id>)
  {
    && |out| == |m|
    && ListedIds(out) == m
    && (forall i :: 0 <= i < |out| ==> out[i].id in s && out[i] == ListingOf(s[out[i].id]))
  }

  /** Appending the entry of a gadget not yet listed extends the enumeration by its key. */
  lemma EnumeratesExtend(s: Store, out: seq<Listing>, taken: set<Id>, k: Id)
    requires Enumerates(out, s, taken)
    requires k in s && k !in taken
    ensures Enumerates(out + [ListingOf(s[k])], s, taken + {k})
  {
    var out' := out + [ListingOf(s[k])];
    assert out'[|out|].id == k;
    assert forall i :: 0 <= i < |out| ==> out'[i] == out[i];
    assert ListedIds(out') == ListedIds(out) + {k};
  }

  /** One step of the walk: key `k` leaves `rest`, and its entry is appended
      exactly when it is selected. */
  lemma CollectStep(s: Store, out: seq<Listing>, m: set<Id>, rest: set<Id>, k: Id, selected: bool)
    requires Enumerates(out, s, m - rest)
    requires m <= s.Keys && k in rest && (k in m <==> selected)
    ensures Enumerates(if selected then out + [ListingOf(s[k])] else out, s, m - (rest - {k}))
  {
    if selected {
      EnumeratesExtend(s, out, m - rest, k);
      assert m - (rest - {k}) == (m - rest) + {k};
    } else {
      assert m - (rest - {k}) == m - rest;
    }
  }

  /** Walks the store once and lists every gadget the filter selects. */
  method CollectListings(s: Store, filter: Option<Status>) returns (out: seq<Listing>)
    ensures Enumerates(out, s, Matching(s, filter))
  {
    ghost var m := Matching(s, filter);
    var rest := s.Keys;
    out := [];
    while rest != {}
      invariant rest <= s.Keys
      invariant Enumerates(out, s, m - rest)
      decreases rest
    {
      var k :| k in rest;
      var selected := filter.None? || s[k].status == filter.value;
      CollectStep(s, out, m, rest, k, selected);
      if selected {
        out := out + [ListingOf(s[k])];
      }
      rest := rest - {k};
    }
    assert m - rest == m;
  }

  /** GET /gadgets[?status=]. Lists the selected gadgets in store order (left
      open here); an empty selection is an error, as is an unknown status. */
  method ListGadgets(s: Store, query: Option<string>) returns (r: Reply<seq<Listing>>)
    ensures r.store == s
    ensures StatusFilter(query).Err? ==> r == Reply(BadRequest400, s, Err(StatusFilter(query).error))
    ensures StatusFilter(query).Ok? ==>
      var m := Matching(s, StatusFilter(query).value);
      && (m == {} ==> r == Reply(BadRequest400, s, Err(NoneFound)))
      && (m != {} ==> r.code == Ok200 && r.body.Ok? && Enumerates(r.body.value, s, m))
  {
    var filter := StatusFilter(query);
    if filter.Err? {
      return Reply(BadRequest400, s, Err(filter.error));
    }
    var out := CollectListings(s, filter.value);
    if |out| == 0 {
      return Reply(BadRequest400, s, Err(NoneFound));
    }
    return Reply(Ok200, s, Ok(out));
  }

  /** PATCH /gadgets. A partial update of name and status: a falsy field keeps the
      stored value. No transition is checked, and id and decommission date are
      never written. */
  function UpdateGadget(s: Store, id: Option<Id>, newName: Option<string>, newStatus: Option<string>): (r: Reply<Gadget>)
    ensures r.body.Err? ==> r.code == BadRequest400 && r.store == s
    ensures !Truthy(id) ==> r.body == Err(IdRequired)
    ensures Truthy(id) && id.value !in s ==> r.body == Err(NotFound(id.value))
    ensures Truthy(id) && id.value in s && Truthy(newStatus) && ParseStatus(newStatus.value).None? ==>
      r.body == Err(InvalidStatus(newStatus.value))
    ensures r.body.Ok? <==>
      Truthy(id) && id.value in s && (Truthy(newStatus) ==> ParseStatus(newStatus.value).Some?)
    ensures r.body.Ok? ==>
      var stored := s[id.value];
      var g := r.body.value;
      && r.code == Ok200
      && g.id == stored.id
      && g.decommissionedOn == stored.decommissionedOn
      && g.name == (if Truthy(newName) then newName.value else stored.name)
      && (Truthy(newStatus) ==> StatusName(g.status) == newStatus.value)
      && (!Truthy(newStatus) ==> g.status == stored.status)
      && OnlyChanged(s, r.store, id.value)
      && r.store[id.value] == g
  {
    if !Truthy(id) then Reply(BadRequest400, s, Err(IdRequired))
    else if id.value !in s then Reply(BadRequest400, s, Err(NotFound(id.value)))
    else
      var existing := s[id.value];
      var status :=
        if Truthy(newStatus) then ParseStatus(newStatus.value) else Some(existing.status);
      if status.None? then Reply(BadRequest400, s, Err(InvalidStatus(newStatus.value)))
      else
        var g := existing.(name := if Truthy(newName) then newName.value else existing.name,
                           status := status.value);
        Reply(Ok200, s[id.value := g], Ok(g))
  }

  /** DELETE /gadgets/:id. The gadget is not deleted: it is marked DECOMMISSIONED
      and stamped with the current time `now`. */
  function RemoveGadget(s: Store, id: Id, now: Timestamp): (r: Reply<Gadget>)
    ensures id !in s ==> r == Reply(BadRequest400, s, Err(NotFound(id)))
    ensures id in s ==>
      && r.code == Ok200 && r.body.Ok?
      && var g := r.body.value;
      && g.id == s[id].id
      && g.name == s[id].name
      && g.status == DECOMMISSIONED
      && g.decommissionedOn == Some(now)
      && OnlyChanged(s, r.store, id)
      && r.store[id] == g
  {
    if id !in s then Reply(BadRequest400, s, Err(NotFound(id)))
    else
      var g := s[id].(status := DECOMMISSIONED, decommissionedOn := Some(now));
      Reply(Ok200, s[id := g], Ok(g))
  }

  /** Decommissioning again only re-stamps the date: the second call's store is the
      one a single call at the later time would give. */
  lemma RemoveRestamps(s: Store, id: Id, t1: Timestamp, t2: Timestamp)
    ensures RemoveGadget(RemoveGadget(s, id, t1).store, id, t2).store == RemoveGadget(s, id, t2).store
  {
  }

  /** POST /gadgets/:id/self-destruct AS WRITTEN. The two guards send a 400 but do
      not return, so the DESTROYED write still runs when the id exists, whatever
      the confirmation code. The client sees the first reply sent. */
  function SelfDestructAsWritten(s: Store, id: Id, code: Option<string>): (r: Reply<Gadget>)
    ensures id !in s ==> r == Reply(BadRequest400, s, Err(NotFound(id)))
    ensures id in s ==>
      && OnlyChanged(s, r.store, id)
      && r.store[id] == s[id].(status := DESTROYED)
      && (Truthy(code) ==> r.code == Ok200 && r.body == Ok(r.store[id]))
      && (!Truthy(code) ==> r.code == BadRequest400 && r.body == Err(ConfirmationRequired))
  {
    if id !in s then Reply(BadRequest400, s, Err(NotFound(id)))
    else
      var g := s[id].(status := DESTROYED);
      if !Truthy(code) then Reply(BadRequest400, s[id := g], Err(ConfirmationRequired))
      else Reply(Ok200, s[id := g], Ok(g))
  }

  /** The fall-through: a request without a confirmation code is answered 400 and
      still destroys the gadget. */
  lemma MissingCodeStillDestroys(s: Store, id: Id)
    requires id in s && s[id].status != DESTROYED
    ensures var r := SelfDestructAsWritten(s, id, None);
      r.code == BadRequest400 && r.store != s && r.store[id].status == DESTROYED
  {
    var r := SelfDestructAsWritten(s, id, None);
    assert r.store[id] != s[id];
  }

  /** POST /gadgets/:id/self-destruct with the guards returning as intended. Only
      the status changes, to DESTROYED; the code must be present but is never
      compared with anything. */
  function SelfDestruct(s: Store, id: Id, code: Option<string>): (r: Reply<Gadget>)
    ensures id !in s ==> r == Reply(BadRequest400, s, Err(NotFound(id)))
    ensures id in s && !Truthy(code) ==> r == Reply(BadRequest400, s, Err(ConfirmationRequired))
    ensures r.body.Ok? <==> id in s && Truthy(code)
    ensures r.body.Ok? ==>
      var g := r.body.value;
      && r.code == Ok200
      && g.status == DESTROYED
      && g.id == s[id].id && g.name == s[id].name && g.decommissionedOn == s[id].decommissionedOn
      && OnlyChanged(s, r.store, id)
      && r.store[id] == g
  {
    if id !in s then Reply(BadRequest400, s, Err(NotFound(id)))
    else if !Truthy(code) then Reply(BadRequest400, s, Err(ConfirmationRequired))
    else
      var g := s[id].(status := DESTROYED);
      Reply(Ok200, s[id := g], Ok(g))
  }

  /** The corrected handler agrees with the written one whenever a code is given,
      and otherwise leaves the store as it was. */
  lemma SelfDestructAgreesWithCode(s: Store, id: Id, code: Option<string>)
    ensures Truthy(code) ==> SelfDestruct(s, id, code) == SelfDestructAsWritten(s, id, code)
    ensures !Truthy(code) ==> SelfDestruct(s, id, code).store == s
  {
  }

  /** Spelling the status of a decommissioned gadget as AVAILABLE revives it while
      its decommission date stays: updates do not keep the date in step with the
      status. */
  lemma UpdateKeepsStaleDate(s: Store, id: Id)
    requires id in s && id != "" && s[id].decommissionedOn.Some?
    ensures var r := UpdateGadget(s, Some(id), None, Some("AVAILABLE"));
      r.body.Ok? && id in r.store && r.store[id].status == AVAILABLE && r.store[id].decommissionedOn.Some?
  {
    assert ParseStatus("AVAILABLE") == Some(AVAILABLE);
  }
}
