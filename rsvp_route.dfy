/** The public RSVP endpoint (app/api/rsvp/route.ts, POST): find the guest
    by slug, else by name, coerce the answer, and write the guest's one rsvp
    row, updating it when it exists and inserting it otherwise. */
module RsvpRoute {
  import opened Optional
  import opened Strings
  import opened Numerals
  import opened Seqs
  import opened Schema
  import opened JsonValues

  /** The fields of the request body. name, message and slug are strings or
      absent. */
  datatype RsvpRequest = RsvpRequest(name: Option<string>, attending: Json, guests: Json,
                                     message: Option<string>, slug: Option<string>)

  datatype Body = Saved(guest: string) | Error(error: string)

  datatype Response = Response(status: int, body: Body)

  const NotFound := "Guest name not found on the list. Please use the exact name on your invitation or contact the couple."
  const SaveFailed := "Failed to save RSVP."
  const InternalError := "Internal Server Error"

  /** `attending === "yes" || attending === true`. */
  predicate CoerceAttending(v: Json) { v == Text("yes") || v == Boolean(true) }

  /** `parseInt(guests) || 1`: NaN and 0 become 1. */
  function CoerceGuests(v: Json): (n: int)
    ensures n != 0
    ensures ParseInt(JsString(v)).Some? && ParseInt(JsString(v)).value != 0 ==> n == ParseInt(JsString(v)).value
    ensures ParseInt(JsString(v)).None? ==> n == 1
    ensures ParseInt(JsString(v)) == Some(0) ==> n == 1
  {
    match ParseInt(JsString(v))
    case None => 1
    case Some(k) => if k == 0 then 1 else k
  }

  /** A number sent as a JSON number is stored as it is, unless it is 0;
      that includes negative numbers. Only safe integers: JSON.parse rounds
      larger ones, and String() writes 10^21 and above in exponent form. */
  lemma CoerceGuestsNumber(n: int)
    requires SafeInteger(n)
    ensures CoerceGuests(Number(n)) == if n == 0 then 1 else n
  {
    ParseIntOfIntToString(n);
  }

  /** The strings "true" and "no", and the boolean false, are all read as not
      attending. */
  lemma AttendingExamples()
    ensures !CoerceAttending(Text("true")) && !CoerceAttending(Text("no")) && !CoerceAttending(Boolean(false))
    ensures CoerceAttending(Text("yes")) && CoerceAttending(Boolean(true))
  {
  }

  /** parseInt of text that starts with a letter, of either case: NaN. */
  lemma ParseIntLetter(s: string)
    requires s != [] && ('a' <= s[0] <= 'z' || 'A' <= s[0] <= 'Z')
    ensures ParseInt(s) == None
  {
    assert !IsSpace(s[0]);
    assert TrimStart(s) == s;
  }

  /** null, undefined and the booleans as guest counts give 1. */
  lemma CoerceGuestsNonNumbers()
    ensures CoerceGuests(Null) == 1 && CoerceGuests(Undefined) == 1
    ensures CoerceGuests(Boolean(true)) == 1 && CoerceGuests(Boolean(false)) == 1
  {
    ParseIntLetter("null");
    ParseIntLetter("undefined");
    ParseIntLetter("true");
    ParseIntLetter("false");
  }

  /** A guest count typed with a minus sign is stored negative. */
  lemma CoerceGuestsNegativeText()
    ensures CoerceGuests(Text("-2")) == -2
  {
    ParseIntOfIntToString(-2);
    assert IntToString(-2) == "-2";
  }

  function SlugIs(slug: string): Guest -> bool { (g: Guest) => g.slug == slug }

  function NameIs(name: string): Guest -> bool { (g: Guest) => EqualsIgnoreCase(g.name, name) }

  function ForGuest(guestId: Id): Rsvp -> bool { (r: Rsvp) => r.guestId == Some(guestId) }

  /** The guest an RSVP is for: the one guest with the slug, when a slug is
      given and one guest has it; otherwise the one guest whose name equals
      the trimmed name up to case, when a name is given. */
  function ResolveGuest(guests: seq<Guest>, slug: Option<string>, name: Option<string>): (r: Option<Guest>)
    ensures r.Some? ==> r.value in guests
    ensures Truthy(slug) && Single(guests, SlugIs(slug.value)).Some? ==> r == Single(guests, SlugIs(slug.value))
    ensures !(Truthy(slug) && Single(guests, SlugIs(slug.value)).Some?) ==>
              r == if Truthy(name) then Single(guests, NameIs(Trim(name.value))) else None
  {
    var bySlug := if Truthy(slug) then Single(guests, SlugIs(slug.value)) else None;
    if bySlug.Some? then bySlug
    else if Truthy(name) then Single(guests, NameIs(Trim(name.value)))
    else None
  }

  /** A guest found by slug is the guest, whatever name comes with it. */
  lemma SlugTakesPrecedence(guests: seq<Guest>, k: nat, name: Option<string>)
    requires k < |guests| && guests[k].slug != []
    requires forall i :: 0 <= i < |guests| && i != k ==> guests[i].slug != guests[k].slug
    ensures ResolveGuest(guests, Some(guests[k].slug), name) == Some(guests[k])
  {
    SingleUnique(guests, SlugIs(guests[k].slug), k);
  }

  /** With no slug, or one no guest has, the name decides. */
  lemma NameFallback(guests: seq<Guest>, slug: Option<string>, name: string, k: nat)
    requires forall i :: 0 <= i < |guests| ==> !(Truthy(slug) && guests[i].slug == slug.value)
    requires k < |guests| && EqualsIgnoreCase(guests[k].name, Trim(name))
    requires forall i :: 0 <= i < |guests| && i != k ==> !EqualsIgnoreCase(guests[i].name, Trim(name))
    requires name != []
    ensures ResolveGuest(guests, slug, Some(name)) == Some(guests[k])
  {
    if Truthy(slug) {
      SingleNone(guests, SlugIs(slug.value));
    }
    SingleUnique(guests, NameIs(Trim(name)), k);
  }

  lemma SingleNone(guests: seq<Guest>, p: Guest -> bool)
    requires forall i :: 0 <= i < |guests| ==> !p(guests[i])
    ensures Single(guests, p) == None
  {
    FilterNone(guests, p);
  }

  /** The row the save writes over an existing rsvp: the answer and the time
      change; id, guest, dietary restrictions and creation time stay. */
  function Overwritten(r: Rsvp, attending: bool, count: int, message: Option<string>, now: Timestamp): Rsvp {
    r.(attending := attending, numberOfGuests := Some(count), message := message, updatedAt := now)
  }

  /** `update(rsvpData).eq("id", id)`: every row with that id is
      overwritten with the answer. */
  function OverwriteById(rsvps: seq<Rsvp>, id: Id, attending: bool, count: int, message: Option<string>,
                         now: Timestamp): (r: seq<Rsvp>)
    ensures |r| == |rsvps|
    ensures forall i :: 0 <= i < |r| ==> r[i].id == rsvps[i].id && r[i].guestId == rsvps[i].guestId
    ensures forall i :: 0 <= i < |r| && rsvps[i].id != id ==> r[i] == rsvps[i]
    ensures forall i :: 0 <= i < |r| && rsvps[i].id == id ==> r[i] == Overwritten(rsvps[i], attending, count, message, now)
  {
    seq(|rsvps|, i requires 0 <= i < |rsvps| =>
      if rsvps[i].id == id then Overwritten(rsvps[i], attending, count, message, now) else rsvps[i])
  }

  /** The check-then-update-or-insert: the guest's row, found by guest_id,
      is rewritten by its id, or a new row is added when there is none. */
  function SaveRsvp(rsvps: seq<Rsvp>, guestId: Id, attending: bool, count: int, message: Option<string>,
                    now: Timestamp, newId: Id): (r: seq<Rsvp>)
  {
    var existing := Single(rsvps, ForGuest(guestId));
    if existing.Some? then OverwriteById(rsvps, existing.value.id, attending, count, message, now)
    else rsvps + [Rsvp(newId, Some(guestId), attending, Some(count), None, message, now, now)]
  }

  /** The invariants the store keeps for the rsvp table, with newId above
      every id in use. */
  predicate RsvpTableOk(rsvps: seq<Rsvp>, newId: Id) {
    && Pairwise(rsvps, RsvpIdsDiffer)
    && Pairwise(rsvps, RsvpGuestsDiffer)
    && forall r :: r in rsvps ==> r.id < newId
  }

  /** In a well-kept table the guest's row, when it has one, is the row the
      save looks up. */
  lemma ExistingRow(rsvps: seq<Rsvp>, guestId: Id, k: nat)
    requires Pairwise(rsvps, RsvpGuestsDiffer)
    requires k < |rsvps| && rsvps[k].guestId == Some(guestId)
    ensures Single(rsvps, ForGuest(guestId)) == Some(rsvps[k])
  {
    forall i, j | 0 <= i < j < |rsvps| ensures !(ForGuest(guestId)(rsvps[i]) && ForGuest(guestId)(rsvps[j])) {
      assert RsvpGuestsDiffer(rsvps[i], rsvps[j]);
    }
    SingleOfAtMostOne(rsvps, ForGuest(guestId), k);
  }

  /** What a save promises: the guest has exactly one rsvp row, holding the
      answer; every row of another guest is kept as it was, and no row of
      another guest appears. */
  predicate SavedFor(rsvps: seq<Rsvp>, r: seq<Rsvp>, guestId: Id, attending: bool, count: int,
                     message: Option<string>, now: Timestamp)
  {
    && Count(r, ForGuest(guestId)) == 1
    && (forall x :: x in r && x.guestId == Some(guestId) ==>
          x.attending == attending && x.numberOfGuests == Some(count) && x.message == message && x.updatedAt == now)
    && (forall x :: x in rsvps && x.guestId != Some(guestId) ==> x in r)
    && (forall x :: x in r && x.guestId != Some(guestId) ==> x in rsvps)
  }

  /** After a save the guest has exactly one rsvp row, holding the answer;
      the rows of other guests are unchanged, and the table's invariants
      still hold. */
  lemma SaveRsvpOneRowPerGuest(rsvps: seq<Rsvp>, guestId: Id, attending: bool, count: int,
                               message: Option<string>, now: Timestamp, newId: Id)
    requires RsvpTableOk(rsvps, newId)
    ensures RsvpTableOk(SaveRsvp(rsvps, guestId, attending, count, message, now, newId), newId + 1)
    ensures Single(rsvps, ForGuest(guestId)).Some? ==>
              RsvpTableOk(SaveRsvp(rsvps, guestId, attending, count, message, now, newId), newId)
    ensures SavedFor(rsvps, SaveRsvp(rsvps, guestId, attending, count, message, now, newId), guestId, attending, count, message, now)
  {
    var existing := Single(rsvps, ForGuest(guestId));
    if existing.Some? {
      var k :| 0 <= k < |rsvps| && rsvps[k] == existing.value;
      ExistingRow(rsvps, guestId, k);
      var r := OverwriteById(rsvps, rsvps[k].id, attending, count, message, now);
      OverwriteKeepsTable(rsvps, rsvps[k].id, attending, count, message, now, newId);
      OverwriteSaved(rsvps, guestId, attending, count, message, now, newId, k);
    } else {
      SaveInserts(rsvps, guestId, attending, count, message, now, newId);
    }
  }

  /** Rows other than row k differ from it in id and in guest. */
  lemma OthersDiffer(rsvps: seq<Rsvp>, k: nat)
    requires Pairwise(rsvps, RsvpIdsDiffer) && Pairwise(rsvps, RsvpGuestsDiffer)
    requires k < |rsvps| && rsvps[k].guestId.Some?
    ensures forall i :: 0 <= i < |rsvps| && i != k ==> rsvps[i].id != rsvps[k].id && rsvps[i].guestId != rsvps[k].guestId
  {
    forall i | 0 <= i < |rsvps| && i != k ensures rsvps[i].id != rsvps[k].id && rsvps[i].guestId != rsvps[k].guestId {
      var a, b := if i < k then i else k, if i < k then k else i;
      assert RsvpIdsDiffer(rsvps[a], rsvps[b]) && RsvpGuestsDiffer(rsvps[a], rsvps[b]);
    }
  }

  /** Overwriting keeps every id and every guest link where it was. */
  lemma OverwriteKeepsTable(rsvps: seq<Rsvp>, id: Id, attending: bool, count: int,
                            message: Option<string>, now: Timestamp, newId: Id)
    requires RsvpTableOk(rsvps, newId)
    ensures RsvpTableOk(OverwriteById(rsvps, id, attending, count, message, now), newId)
  {
    var r := OverwriteById(rsvps, id, attending, count, message, now);
    assert Pairwise(r, RsvpIdsDiffer) by {
      forall i, j | 0 <= i < j < |r| ensures RsvpIdsDiffer(r[i], r[j]) {
        assert RsvpIdsDiffer(rsvps[i], rsvps[j]);
      }
    }
    assert Pairwise(r, RsvpGuestsDiffer) by {
      forall i, j | 0 <= i < j < |r| ensures RsvpGuestsDiffer(r[i], r[j]) {
        assert RsvpGuestsDiffer(rsvps[i], rsvps[j]);
      }
    }
    forall x | x in r ensures x.id < newId {
      var i :| 0 <= i < |r| && r[i] == x;
      assert rsvps[i] in rsvps;
    }
  }

  /** Overwriting the guest's row by its id is a save for that guest. */
  lemma OverwriteSaved(rsvps: seq<Rsvp>, guestId: Id, attending: bool, count: int,
                       message: Option<string>, now: Timestamp, newId: Id, k: nat)
    requires RsvpTableOk(rsvps, newId)
    requires k < |rsvps| && rsvps[k].guestId == Some(guestId)
    ensures SavedFor(rsvps, OverwriteById(rsvps, rsvps[k].id, attending, count, message, now),
                     guestId, attending, count, message, now)
  {
    OthersDiffer(rsvps, k);
    var r := OverwriteById(rsvps, rsvps[k].id, attending, count, message, now);
    assert forall i :: 0 <= i < |r| && i != k ==> r[i] == rsvps[i] && !ForGuest(guestId)(r[i]);
    assert ForGuest(guestId)(r[k]);
    SingleUnique(r, ForGuest(guestId), k);
    forall x | x in rsvps && x.guestId != Some(guestId) ensures x in r {
      var i :| 0 <= i < |rsvps| && rsvps[i] == x;
      assert r[i] == x;
    }
    forall x | x in r ensures x.guestId == Some(guestId) ==> x == r[k]
                          ensures x.guestId != Some(guestId) ==> x in rsvps {
      var i :| 0 <= i < |r| && r[i] == x;
      if i != k {
        assert rsvps[i] in rsvps;
      }
    }
  }

  /** When the lookup finds no row for the guest, none of the rows is the
      guest's. */
  lemma NoRowForGuest(rsvps: seq<Rsvp>, guestId: Id)
    requires Pairwise(rsvps, RsvpGuestsDiffer)
    requires Single(rsvps, ForGuest(guestId)).None?
    ensures forall x :: x in rsvps ==> x.guestId != Some(guestId)
  {
    forall x | x in rsvps ensures x.guestId != Some(guestId) {
      var i :| 0 <= i < |rsvps| && rsvps[i] == x;
      if x.guestId == Some(guestId) {
        ExistingRow(rsvps, guestId, i);
      }
    }
  }

  /** A guest without a row gets a new row with a fresh id. */
  lemma SaveInserts(rsvps: seq<Rsvp>, guestId: Id, attending: bool, count: int,
                    message: Option<string>, now: Timestamp, newId: Id)
    requires RsvpTableOk(rsvps, newId)
    requires Single(rsvps, ForGuest(guestId)).None?
    ensures RsvpTableOk(SaveRsvp(rsvps, guestId, attending, count, message, now, newId), newId + 1)
    ensures SavedFor(rsvps, SaveRsvp(rsvps, guestId, attending, count, message, now, newId), guestId, attending, count, message, now)
  {
    var row := Rsvp(newId, Some(guestId), attending, Some(count), None, message, now, now);
    var r := rsvps + [row];
    assert SaveRsvp(rsvps, guestId, attending, count, message, now, newId) == r;
    NoRowForGuest(rsvps, guestId);
    PairwiseSnoc(rsvps, row, RsvpIdsDiffer);
    PairwiseSnoc(rsvps, row, RsvpGuestsDiffer);
    forall i | 0 <= i < |r| && i != |rsvps| ensures !ForGuest(guestId)(r[i]) {
      assert r[i] == rsvps[i] && rsvps[i] in rsvps;
    }
    SingleUnique(r, ForGuest(guestId), |rsvps|);
  }

  /** A second answer from the same guest overwrites the first: the table
      keeps its size and its ids, and the guest's row takes the new answer. */
  lemma ResubmitOverwrites(rsvps: seq<Rsvp>, guestId: Id, a1: bool, c1: int, m1: Option<string>, t1: Timestamp,
                           a2: bool, c2: int, m2: Option<string>, t2: Timestamp, newId: Id, newId2: Id)
    requires RsvpTableOk(rsvps, newId)
    ensures var once := SaveRsvp(rsvps, guestId, a1, c1, m1, t1, newId);
            var twice := SaveRsvp(once, guestId, a2, c2, m2, t2, newId2);
            && |twice| == |once|
            && (forall i :: 0 <= i < |once| ==> twice[i].id == once[i].id)
            && (forall i :: 0 <= i < |once| && once[i].guestId == Some(guestId) ==>
                  twice[i] == Overwritten(once[i], a2, c2, m2, t2))
  {
    var once := SaveRsvp(rsvps, guestId, a1, c1, m1, t1, newId);
    SaveRsvpOneRowPerGuest(rsvps, guestId, a1, c1, m1, t1, newId);
    var f := Filter(once, ForGuest(guestId));
    assert f[0] in once;
    var k :| 0 <= k < |once| && once[k] == f[0];
    ExistingRow(once, guestId, k);
    OthersDiffer(once, k);
  }

  /** What the endpoint answers and what the rsvp table then holds. request
      None stands for a body that is not JSON; newId is the id the store
      would give a new row; writeError a failure of the update or insert. */
  function SubmitRsvpEffect(guests: seq<Guest>, rsvps: seq<Rsvp>, request: Option<RsvpRequest>, now: Timestamp,
                            newId: Id, writeError: Option<string>): (r: (Response, seq<Rsvp>))
    ensures request.None? ==> r == (Response(500, Error(InternalError)), rsvps)
    ensures request.Some? && ResolveGuest(guests, request.value.slug, request.value.name).None? ==>
              r == (Response(404, Error(NotFound)), rsvps)
    ensures request.Some? && ResolveGuest(guests, request.value.slug, request.value.name).Some? && writeError.Some? ==>
              r == (Response(500, Error(SaveFailed)), rsvps)
    ensures r.0.status == 200 <==>
              request.Some? && ResolveGuest(guests, request.value.slug, request.value.name).Some? && writeError.None?
    ensures r.0.status == 200 ==>
              var req := request.value;
              var g := ResolveGuest(guests, req.slug, req.name).value;
              && r.0.body == Saved(g.name)
              && r.1 == SaveRsvp(rsvps, g.id, CoerceAttending(req.attending), CoerceGuests(req.guests),
                                 OrNull(req.message), now, newId)
  {
    if request.None? then (Response(500, Error(InternalError)), rsvps)
    else
      var req := request.value;
      var guest := ResolveGuest(guests, req.slug, req.name);
      if guest.None? then (Response(404, Error(NotFound)), rsvps)
      else if writeError.Some? then (Response(500, Error(SaveFailed)), rsvps)
      else
        (Response(200, Saved(guest.value.name)),
         SaveRsvp(rsvps, guest.value.id, CoerceAttending(req.attending), CoerceGuests(req.guests),
                  OrNull(req.message), now, newId))
  }

  /** The guest lookup of the endpoint: by slug first, then by the trimmed
      name when the slug found nobody. */
  method LookupGuest(db: Database, slug: Option<string>, name: Option<string>) returns (guest: Option<Guest>)
    ensures guest == ResolveGuest(db.guests, slug, name)
  {
    guest := None;
    if Truthy(slug) {
      guest := Single(db.guests, SlugIs(slug.value));
    }
    if guest.None? && Truthy(name) {
      guest := Single(db.guests, NameIs(Trim(name.value)));
    }
  }

  /** The write of the endpoint: update the guest's row when it has one,
      insert a row otherwise. */
  method WriteRsvp(db: Database, guestId: Id, attending: bool, count: int, message: Option<string>, now: Timestamp)
    requires db.Valid()
    modifies db`rsvps, db`nextId
    ensures db.Valid()
    ensures db.rsvps == SaveRsvp(old(db.rsvps), guestId, attending, count, message, now, old(db.nextId))
  {
    var existing := Single(db.rsvps, ForGuest(guestId));
    SaveRsvpOneRowPerGuest(db.rsvps, guestId, attending, count, message, now, db.nextId);
    if existing.Some? {
      db.rsvps := OverwriteById(db.rsvps, existing.value.id, attending, count, message, now);
    } else {
      var id := db.NewId();
      db.rsvps := db.rsvps + [Rsvp(id, Some(guestId), attending, Some(count), None, message, now, now)];
    }
  }

  /** POST /api/rsvp. */
  method SubmitRsvp(db: Database, request: Option<RsvpRequest>, now: Timestamp, writeError: Option<string>)
    returns (response: Response)
    requires db.Valid()
    modifies db
    ensures db.Valid()
    ensures (response, db.rsvps) == SubmitRsvpEffect(old(db.guests), old(db.rsvps), request, now, old(db.nextId), writeError)
    ensures db.guests == old(db.guests) && db.wishes == old(db.wishes) && db.weddingInfo == old(db.weddingInfo)
  {
    if request.None? {
      return Response(500, Error(InternalError));
    }
    var req := request.value;
    var guest := LookupGuest(db, req.slug, req.name);
    if guest.None? {
      return Response(404, Error(NotFound));
    }
    var attending := CoerceAttending(req.attending);
    var count := CoerceGuests(req.guests);
    var message := OrNull(req.message);
    if writeError.Some? {
      return Response(500, Error(SaveFailed));
    }
    WriteRsvp(db, guest.value.id, attending, count, message, now);
    response := Response(200, Saved(guest.value.name));
  }
}
