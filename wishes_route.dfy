/** The public wishes endpoint (app/api/wishes/route.ts): GET lists the
    approved wishes, newest first; POST stores a new wish, approved at once. */
module WishesRoute {
  import opened Optional
  import opened Strings
  import opened Seqs
  import opened Schema
  import opened JsonValues

  datatype Body = Wishes(wishes: seq<Wish>) | Created(wish: Wish) | Error(error: string)

  datatype Response = Response(status: int, body: Body)

  const FetchFailed := "Failed to fetch wishes"
  const InternalError := "Internal server error"
  const Required := "Name and message are required"
  const SubmitFailed := "Failed to submit wish"

  function WishCreatedAt(w: Wish): int { w.createdAt }

  function IsApproved(w: Wish): bool { w.isApproved == Some(true) }

  /** The wishes GET shows: approved ones, newest first. */
  function PublicWishes(wishes: seq<Wish>): (r: seq<Wish>)
    ensures SortedDesc(r, WishCreatedAt)
    ensures forall w :: w in r <==> w in wishes && w.isApproved == Some(true)
    ensures multiset(r) == multiset(Filter(wishes, IsApproved))
  {
    var approved := Filter(wishes, IsApproved);
    SortDescMembers(approved, WishCreatedAt);
    SortDesc(approved, WishCreatedAt)
  }

  /** GET /api/wishes; readError stands for the query failing. */
  function GetWishes(wishes: seq<Wish>, readError: bool): (r: Response)
    ensures readError ==> r == Response(500, Error(FetchFailed))
    ensures !readError ==> r.status == 200 && r.body.Wishes?
    ensures !readError ==> forall w :: w in r.body.wishes <==> w in wishes && w.isApproved == Some(true)
    ensures !readError ==> SortedDesc(r.body.wishes, WishCreatedAt)
    ensures !readError ==> multiset(r.body.wishes) == multiset(Filter(wishes, IsApproved))
  {
    if readError then Response(500, Error(FetchFailed))
    else Response(200, Wishes(PublicWishes(wishes)))
  }

  /** The two fields POST reads from the body. */
  datatype WishRequest = WishRequest(guestName: Json, message: Json)

  /** `v?.trim()`: absent for undefined and null, the trimmed text for a
      string; any other value has no trim method and throws. */
  datatype Trimmed = Absent | Throws | TrimmedText(s: string)

  function TrimField(v: Json): (r: Trimmed)
    ensures r.TrimmedText? <==> v.Text?
    ensures r.Absent? <==> v.Undefined? || v.Null?
    ensures v.Text? ==> r.s == Trim(v.s)
  {
    match v
    case Undefined => Absent
    case Null => Absent
    case Text(s) => TrimmedText(Trim(s))
    case _ => Throws
  }

  /** The row a valid request inserts: trimmed fields, approved. */
  function NewWish(id: Id, name: string, message: string, now: Timestamp): (w: Wish)
    ensures w.id == id && w.guestName == Trim(name) && w.message == Trim(message)
    ensures w.isApproved == Some(true) && w.createdAt == now
  {
    Wish(id, Trim(name), Trim(message), Some(true), now)
  }

  /** A request POST accepts: both fields strings that are not blank. */
  predicate Accepted(req: WishRequest) {
    req.guestName.Text? && req.message.Text? && !IsBlank(req.guestName.s) && !IsBlank(req.message.s)
  }

  /** What POST answers and what the wishes table then holds. request None
      stands for a body that is not JSON, or is JSON null, so that reading
      its fields throws; any other body, a number or a string included, has
      its two fields read (Undefined when it has none). The name is checked
      before the message, so a blank name answers 400 whatever the message
      is, and a message is trimmed only after the name passed. */
  function PostWishEffect(wishes: seq<Wish>, request: Option<WishRequest>, now: Timestamp, newId: Id,
                          writeError: bool): (r: (Response, seq<Wish>))
    ensures request.None? ==> r == (Response(500, Error(InternalError)), wishes)
    ensures request.Some? && !Accepted(request.value) ==> r.1 == wishes && (r.0.status == 400 || r.0.status == 500)
    ensures request.Some? && TrimField(request.value.guestName).Throws? ==> r.0 == Response(500, Error(InternalError))
    ensures request.Some? && (request.value.guestName.Undefined? || request.value.guestName.Null?) ==>
              r.0 == Response(400, Error(Required))
    ensures request.Some? && request.value.guestName.Text? && IsBlank(request.value.guestName.s) ==>
              r.0 == Response(400, Error(Required))
    ensures request.Some? && request.value.guestName.Text? && !IsBlank(request.value.guestName.s) ==>
              var m := request.value.message;
              (m.Undefined? || m.Null? || (m.Text? && IsBlank(m.s)) ==> r.0 == Response(400, Error(Required))) &&
              (TrimField(m).Throws? ==> r.0 == Response(500, Error(InternalError)))
    ensures request.Some? && Accepted(request.value) && writeError ==> r == (Response(500, Error(SubmitFailed)), wishes)
    ensures r.0.status == 201 <==> request.Some? && Accepted(request.value) && !writeError
    ensures r.0.status == 201 ==>
              var w := NewWish(newId, request.value.guestName.s, request.value.message.s, now);
              r.0.body == Created(w) && r.1 == wishes + [w]
  {
    if request.None? then (Response(500, Error(InternalError)), wishes)
    else
      var req := request.value;
      match TrimField(req.guestName)
      case Throws => (Response(500, Error(InternalError)), wishes)
      case Absent => (Response(400, Error(Required)), wishes)
      case TrimmedText(name) =>
        if name == [] then (Response(400, Error(Required)), wishes)
        else
          match TrimField(req.message)
          case Throws => (Response(500, Error(InternalError)), wishes)
          case Absent => (Response(400, Error(Required)), wishes)
          case TrimmedText(message) =>
            if message == [] then (Response(400, Error(Required)), wishes)
            else if writeError then (Response(500, Error(SubmitFailed)), wishes)
            else
              var w := NewWish(newId, req.guestName.s, req.message.s, now);
              (Response(201, Created(w)), wishes + [w])
  }

  /** A wish POST accepts shows up in the next GET, and its fields are never
      blank. */
  lemma PostedWishIsListed(wishes: seq<Wish>, req: WishRequest, now: Timestamp, newId: Id)
    requires Accepted(req)
    ensures var (resp, after) := PostWishEffect(wishes, Some(req), now, newId, false);
            && resp.status == 201
            && resp.body.wish in GetWishes(after, false).body.wishes
            && !IsBlank(resp.body.wish.guestName) && !IsBlank(resp.body.wish.message)
  {
    var w := NewWish(newId, req.guestName.s, req.message.s, now);
    assert w in wishes + [w];
    TrimIdempotent(req.guestName.s);
    TrimIdempotent(req.message.s);
  }

  /** POST /api/wishes. */
  method PostWish(db: Database, request: Option<WishRequest>, now: Timestamp, writeError: bool)
    returns (response: Response)
    requires db.Valid()
    modifies db`wishes, db`nextId
    ensures db.Valid()
    ensures (response, db.wishes) == PostWishEffect(old(db.wishes), request, now, old(db.nextId), writeError)
  {
    if request.None? {
      return Response(500, Error(InternalError));
    }
    var name := TrimField(request.value.guestName);
    if name.Throws? {
      return Response(500, Error(InternalError));
    }
    if name.Absent? || name.s == [] {
      return Response(400, Error(Required));
    }
    var message := TrimField(request.value.message);
    if message.Throws? {
      return Response(500, Error(InternalError));
    }
    if message.Absent? || message.s == [] {
      return Response(400, Error(Required));
    }
    if writeError {
      return Response(500, Error(SubmitFailed));
    }
    var w := InsertWish(db, name.s, message.s, now);
    response := Response(201, Created(w));
  }

  /** The insert of POST: the store gives the row the next id and stamps it
      with now; the wish is approved at once. */
  method InsertWish(db: Database, guestName: string, message: string, now: Timestamp) returns (w: Wish)
    requires db.Valid()
    modifies db`wishes, db`nextId
    ensures db.Valid()
    ensures w == Wish(old(db.nextId), guestName, message, Some(true), now)
    ensures db.wishes == old(db.wishes) + [w] && db.nextId == old(db.nextId) + 1
  {
    var id := db.NewId();
    w := Wish(id, guestName, message, Some(true), now);
    WishAppended(db.guests, db.rsvps, db.wishes, db.weddingInfo, w);
    db.wishes := db.wishes + [w];
  }
}
