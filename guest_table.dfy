/** The admin guest table (components/admin/guests/GuestTable.tsx): the RSVP
    status of each guest, the invitation link it copies, the placeholder for
    an empty list, and the copied / deleting markers it keeps. */
module GuestTable {
  import opened Optional
  import opened Numerals
  import opened Schema
  import GuestActions

  /** An entry of the rsvp list the guests query embeds. */
  datatype RsvpEntry = RsvpEntry(attending: bool, numberOfGuests: Option<int>)

  /** A guest as the table receives it: its row and its rsvp list, which is
      null or empty when the guest has not answered. */
  datatype TableGuest = TableGuest(guest: Guest, rsvp: Option<seq<RsvpEntry>>)

  datatype RsvpStatus = NoResponse | Attending(count: Option<int>) | Declined

  /** getRsvpStatus: only the first entry counts. */
  function GetRsvpStatus(rsvp: Option<seq<RsvpEntry>>): (s: RsvpStatus)
    ensures s == NoResponse <==> rsvp.None? || rsvp.value == []
    ensures s.Attending? <==> rsvp.Some? && rsvp.value != [] && rsvp.value[0].attending
    ensures s.Attending? ==> s.count == rsvp.value[0].numberOfGuests
    ensures s == Declined <==> rsvp.Some? && rsvp.value != [] && !rsvp.value[0].attending
  {
    if rsvp.None? || rsvp.value == [] then NoResponse
    else if rsvp.value[0].attending then Attending(rsvp.value[0].numberOfGuests)
    else Declined
  }

  const AttendingPrefix := "\U{2713} Attending ("

  /** The text of the status cell; a null count renders as nothing. */
  function StatusLabel(s: RsvpStatus): (text: string)
  {
    match s
    case NoResponse => "No Response"
    case Attending(count) => AttendingPrefix + (if count.Some? then IntToString(count.value) else "") + ")"
    case Declined => "\U{2717} Declined"
  }

  /** The status cell tells the three statuses, and the attending counts,
      apart. */
  lemma StatusLabelInjective(a: RsvpStatus, b: RsvpStatus)
    requires StatusLabel(a) == StatusLabel(b)
    ensures a == b
  {
    var la := StatusLabel(a);
    if a.NoResponse? {
      assert la[0] == 'N';
    } else if a.Declined? {
      assert la[0] == '\U{2717}';
    } else {
      assert la[0] == '\U{2713}';
    }
    if a.Attending? && b.Attending? {
      var ca := if a.count.Some? then IntToString(a.count.value) else "";
      var cb := if b.count.Some? then IntToString(b.count.value) else "";
      var n := |AttendingPrefix|;
      assert la == AttendingPrefix + ca + ")";
      assert ca == la[n..|la| - 1];
      assert cb == la[n..|la| - 1];
      if a.count.Some? {
        ParseIntOfIntToString(a.count.value);
      }
      if b.count.Some? {
        ParseIntOfIntToString(b.count.value);
      }
      NonEmptyNumber(a.count);
      NonEmptyNumber(b.count);
    }
  }

  lemma NonEmptyNumber(c: Option<int>)
    ensures c.Some? ==> IntToString(c.value) != []
  {
  }

  const InvitationPath := "/invitation?guest="

  /** The link copyInvitationLink writes to the clipboard; the slug goes in
      as it is, without URL encoding. */
  function InvitationLink(origin: string, slug: string): (link: string)
    ensures |link| == |origin| + |InvitationPath| + |slug|
  {
    origin + InvitationPath + slug
  }

  /** The origin, the path and the slug can be read back off the link. */
  lemma InvitationLinkParts(origin: string, slug: string)
    ensures var link := InvitationLink(origin, slug);
            && link[..|origin|] == origin
            && link[|origin|..|origin| + |InvitationPath|] == InvitationPath
            && link[|origin| + |InvitationPath|..] == slug
  {
  }

  /** `guest.group || "-"`. */
  function GroupCell(group: Option<string>): (cell: string)
    ensures group.Some? && group.value != [] ==> cell == group.value
    ensures group.None? || group.value == [] ==> cell == "-"
  {
    if group.Some? && group.value != [] then group.value else "-"
  }

  /** The contact cell: the email line when the email is non-empty, then the
      phone line when the phone is non-empty, and "-" when neither is. */
  function ContactCell(email: Option<string>, phone: Option<string>): (lines: seq<string>)
    ensures lines != []
    ensures Truthy(email) && Truthy(phone) ==> lines == [email.value, phone.value]
    ensures Truthy(email) && !Truthy(phone) ==> lines == [email.value]
    ensures !Truthy(email) && Truthy(phone) ==> lines == [phone.value]
    ensures !Truthy(email) && !Truthy(phone) ==> lines == ["-"]
  {
    var shown := (if Truthy(email) then [email.value] else []) + (if Truthy(phone) then [phone.value] else []);
    if shown == [] then ["-"] else shown
  }

  /** What one table row shows. */
  datatype Row = Row(id: Id, name: string, slug: string, group: string, contact: seq<string>, status: string)

  datatype TableBody = Placeholder | Rows(rows: seq<Row>)

  function RowOf(g: TableGuest): Row {
    Row(g.guest.id, g.guest.name, g.guest.slug, GroupCell(g.guest.groupName),
        ContactCell(g.guest.email, g.guest.phone), StatusLabel(GetRsvpStatus(g.rsvp)))
  }

  /** The table body: one placeholder row for an empty list, else one row
      per guest in the given order, showing that guest's cells. */
  function Body(guests: seq<TableGuest>): (b: TableBody)
    ensures b == Placeholder <==> guests == []
    ensures b.Rows? ==> |b.rows| == |guests|
    ensures b.Rows? ==> forall i :: 0 <= i < |guests| ==>
              var g := guests[i].guest;
              && b.rows[i].id == g.id && b.rows[i].name == g.name && b.rows[i].slug == g.slug
              && b.rows[i].group == GroupCell(g.groupName)
              && b.rows[i].contact == ContactCell(g.email, g.phone)
              && b.rows[i].status == StatusLabel(GetRsvpStatus(guests[i].rsvp))
  {
    if guests == [] then Placeholder
    else Rows(seq(|guests|, i requires 0 <= i < |guests| => RowOf(guests[i])))
  }

  /** The table's state: the guest whose link was just copied and the guest
      being deleted. */
  class GuestTableState {
    var copiedId: Option<Id>
    var deletingId: Option<Id>

    constructor ()
      ensures copiedId.None? && deletingId.None?
    {
      copiedId, deletingId := None, None;
    }

    /** The button of a guest reads "Copied" exactly for the copied one. */
    function CopyButtonLabel(id: Id): (text: string)
      reads this
      ensures text == "Copied" <==> copiedId == Some(id)
      ensures text == "Copied" || text == "Link"
    {
      if copiedId == Some(id) then "Copied" else "Link"
    }

    /** The delete button of the guest being deleted is disabled. */
    predicate DeleteDisabled(id: Id)
      reads this
    {
      deletingId == Some(id)
    }

    /** copyInvitationLink: returns the link written to the clipboard and
        marks the guest as copied. */
    method CopyInvitationLink(origin: string, slug: string, id: Id) returns (link: string)
      modifies this`copiedId
      ensures link == InvitationLink(origin, slug)
      ensures copiedId == Some(id)
    {
      link := origin + InvitationPath + slug;
      copiedId := Some(id);
    }

    /** The timer two seconds after a copy clears the mark. */
    method CopyTimerFired()
      modifies this`copiedId
      ensures copiedId.None?
    {
      copiedId := None;
    }

    /** handleDelete: nothing happens unless the admin confirms; otherwise
        the guest is marked, deleted through deleteGuest, and unmarked. The
        alert text is returned when the deletion fails with a non-empty
        message; an empty message is falsy and raises no alert. */
    method HandleDelete(db: Database, id: Id, confirmed: bool, writeError: Option<string>)
      returns (alert: Option<string>)
      requires db.Valid()
      modifies this`deletingId, db
      ensures db.Valid()
      ensures !confirmed ==> alert.None? && deletingId == old(deletingId) && db.guests == old(db.guests)
      ensures confirmed ==> deletingId.None?
      ensures confirmed ==> db.guests == GuestActions.DeleteGuestEffect(old(db.guests), id, writeError).0
      ensures confirmed && writeError.Some? && writeError.value != [] ==> alert == Some("Error: " + writeError.value)
      ensures confirmed && (writeError.None? || writeError.value == []) ==> alert.None?
      ensures db.rsvps == old(db.rsvps) && db.wishes == old(db.wishes) && db.weddingInfo == old(db.weddingInfo)
    {
      if !confirmed {
        return None;
      }
      deletingId := Some(id);
      var result := GuestActions.DeleteGuest(db, id, writeError);
      alert := None;
      if result.Failed? && result.error != [] {
        alert := Some("Error: " + result.error);
      }
      deletingId := None;
    }
  }
}
