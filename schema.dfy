/** The rows of the four tables the application reads and writes (guests,
    rsvp, wishes and wedding_info, with the columns and nullability of
    lib/supabase/database.types.ts), and the store that holds them. Nullable
    columns are Options. Row ids, which the store generates, are numbers
    drawn from a counter; timestamps are integers that order like the
    instants they stand for. */
module Schema {
  import opened Optional
  import opened Seqs

  type Id = nat
  type Timestamp = int

  datatype Guest = Guest(
    id: Id,
    name: string,
    slug: string,
    email: Option<string>,
    phone: Option<string>,
    groupName: Option<string>,
    invitationSent: Option<bool>,
    createdAt: Timestamp,
    updatedAt: Timestamp)

  datatype Rsvp = Rsvp(
    id: Id,
    guestId: Option<Id>,
    attending: bool,
    numberOfGuests: Option<int>,
    dietaryRestrictions: Option<string>,
    message: Option<string>,
    createdAt: Timestamp,
    updatedAt: Timestamp)

  datatype Wish = Wish(
    id: Id,
    guestName: string,
    message: string,
    isApproved: Option<bool>,
    createdAt: Timestamp)

  /** The thirteen editable columns of wedding_info. */
  datatype WeddingContent = WeddingContent(
    groomName: string,
    brideName: string,
    weddingDate: string,
    weddingTime: Option<string>,
    venueName: Option<string>,
    venueAddress: Option<string>,
    venueMapUrl: Option<string>,
    heroImageUrl: Option<string>,
    storyText: Option<string>,
    bankName: Option<string>,
    bankAccountNumber: Option<string>,
    bankAccountName: Option<string>,
    bankQrImageUrl: Option<string>)

  datatype WeddingInfo = WeddingInfo(
    id: Id,
    content: WeddingContent,
    createdAt: Timestamp,
    updatedAt: Timestamp)

  /** The columns of a guest that a joined rsvp query selects. */
  datatype GuestContact = GuestContact(name: string, email: Option<string>, phone: Option<string>)

  /** A row of `select("*, guests(...)")` on rsvp: the rsvp row and its guest,
      when one is linked. */
  datatype RsvpView = RsvpView(rsvp: Rsvp, guest: Option<GuestContact>)

  /** What a server action or route hands back when it has no data to return:
      success (a `{success: true}`, a redirect or no value at all) or an error
      message. */
  datatype Outcome = Done | Failed(error: string)

  /** A JavaScript string that is truthy: present and not empty. */
  predicate Truthy(s: Option<string>) { s.Some? && s.value != [] }

  /** The JavaScript value `x || null` of a form or request string: the empty
      string becomes null. */
  function OrNull(x: Option<string>): (r: Option<string>)
    ensures r.Some? <==> x.Some? && x.value != []
    ensures r.Some? ==> r == x
  {
    if x.Some? && x.value != [] then x else None
  }

  predicate GuestIdsDiffer(a: Guest, b: Guest) { a.id != b.id }
  predicate RsvpIdsDiffer(a: Rsvp, b: Rsvp) { a.id != b.id }
  predicate WishIdsDiffer(a: Wish, b: Wish) { a.id != b.id }
  predicate InfoIdsDiffer(a: WeddingInfo, b: WeddingInfo) { a.id != b.id }

  /** Two rsvp rows may not point to the same guest: the guest_id foreign key
      is one-to-one. */
  predicate RsvpGuestsDiffer(a: Rsvp, b: Rsvp) {
    a.guestId.None? || a.guestId != b.guestId
  }

  /** Every id in use is below the next id, ids are unique within each
      table, and no two rsvp rows point to the same guest. */
  predicate TablesOk(guests: seq<Guest>, rsvps: seq<Rsvp>, wishes: seq<Wish>, weddingInfo: seq<WeddingInfo>,
                     nextId: nat)
  {
    && (forall g :: g in guests ==> g.id < nextId)
    && (forall r :: r in rsvps ==> r.id < nextId)
    && (forall w :: w in wishes ==> w.id < nextId)
    && (forall w :: w in weddingInfo ==> w.id < nextId)
    && Pairwise(guests, GuestIdsDiffer)
    && Pairwise(rsvps, RsvpIdsDiffer)
    && Pairwise(wishes, WishIdsDiffer)
    && Pairwise(weddingInfo, InfoIdsDiffer)
    && Pairwise(rsvps, RsvpGuestsDiffer)
  }

  /** A guest row given the next id can be appended. */
  lemma GuestAppended(guests: seq<Guest>, rsvps: seq<Rsvp>, wishes: seq<Wish>, weddingInfo: seq<WeddingInfo>, g: Guest)
    requires TablesOk(guests, rsvps, wishes, weddingInfo, g.id)
    ensures TablesOk(guests + [g], rsvps, wishes, weddingInfo, g.id + 1)
  {
    PairwiseSnoc(guests, g, GuestIdsDiffer);
  }

  /** A wish row given the next id can be appended. */
  lemma WishAppended(guests: seq<Guest>, rsvps: seq<Rsvp>, wishes: seq<Wish>, weddingInfo: seq<WeddingInfo>, w: Wish)
    requires TablesOk(guests, rsvps, wishes, weddingInfo, w.id)
    ensures TablesOk(guests, rsvps, wishes + [w], weddingInfo, w.id + 1)
  {
    PairwiseSnoc(wishes, w, WishIdsDiffer);
  }

  /** A wedding information row given the next id can be appended. */
  lemma InfoAppended(guests: seq<Guest>, rsvps: seq<Rsvp>, wishes: seq<Wish>, weddingInfo: seq<WeddingInfo>,
                     info: WeddingInfo)
    requires TablesOk(guests, rsvps, wishes, weddingInfo, info.id)
    ensures TablesOk(guests, rsvps, wishes, weddingInfo + [info], info.id + 1)
  {
    PairwiseSnoc(weddingInfo, info, InfoIdsDiffer);
  }

  /** The hosted store. */
  class Database {
    var guests: seq<Guest>
    var rsvps: seq<Rsvp>
    var wishes: seq<Wish>
    var weddingInfo: seq<WeddingInfo>
    /** The next id the store hands out; every id in use is below it. */
    var nextId: nat

    predicate Valid()
      reads this
    {
      TablesOk(guests, rsvps, wishes, weddingInfo, nextId)
    }

    constructor ()
      ensures Valid()
      ensures guests == [] && rsvps == [] && wishes == [] && weddingInfo == [] && nextId == 0
    {
      guests, rsvps, wishes, weddingInfo, nextId := [], [], [], [], 0;
    }

    /** The store generating the id of a new row. */
    method NewId() returns (id: Id)
      requires Valid()
      modifies this`nextId
      ensures id == old(nextId) && nextId == id + 1
      ensures Valid()
    {
      id := nextId;
      nextId := nextId + 1;
    }
  }
}
