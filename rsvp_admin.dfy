/** The admin side of RSVPs (app/actions/rsvp-admin.ts): the filtered list,
    the guests who have not answered, the CSV export and deletion. */
module RsvpAdmin {
  import opened Optional
  import opened Numerals
  import opened Seqs
  import opened Schema
  import GuestActions

  /** The filter argument of getRSVPs; All also stands for no argument. */
  datatype RsvpFilter = All | AttendingOnly | DeclinedOnly

  function ViewUpdatedAt(v: RsvpView): int { v.rsvp.updatedAt }

  /** The embedded `guests(name, email, phone)` of an rsvp row: the guest its
      guest_id points to. Guest ids are distinct in the table, so a guest_id
      that some guest carries always finds that guest. */
  function ContactOf(guests: seq<Guest>, guestId: Option<Id>): (c: Option<GuestContact>)
    ensures c.Some? ==> guestId.Some? && exists g :: g in guests && g.id == guestId.value && c == Some(GuestContact(g.name, g.email, g.phone))
    ensures guestId.Some? && Pairwise(guests, GuestIdsDiffer) && (exists g :: g in guests && g.id == guestId.value) ==> c.Some?
  {
    if guestId.None? then None
    else
      var id := guestId.value;
      assert Pairwise(guests, GuestIdsDiffer) && (exists g :: g in guests && g.id == id) ==>
               Single(guests, GuestActions.IdIs(id)).Some? by {
        if Pairwise(guests, GuestIdsDiffer) { GuestActions.IdLookup(guests, id); }
      }
      match Single(guests, GuestActions.IdIs(id))
      case None => None
      case Some(g) => Some(GuestContact(g.name, g.email, g.phone))
  }

  /** `select("*, guests(name, email, phone)")`: every rsvp row with its
      guest, in table order. */
  function Joined(rsvps: seq<Rsvp>, guests: seq<Guest>): (r: seq<RsvpView>)
    ensures |r| == |rsvps|
    ensures forall i :: 0 <= i < |r| ==> r[i].rsvp == rsvps[i] && r[i].guest == ContactOf(guests, rsvps[i].guestId)
  {
    seq(|rsvps|, i requires 0 <= i < |rsvps| => RsvpView(rsvps[i], ContactOf(guests, rsvps[i].guestId)))
  }

  function Matches(filter: RsvpFilter): RsvpView -> bool {
    (v: RsvpView) => match filter
      case All => true
      case AttendingOnly => v.rsvp.attending
      case DeclinedOnly => !v.rsvp.attending
  }

  /** getRSVPs: the joined rows the filter lets through, most recently
      updated first; nothing when the query fails. */
  function GetRsvps(rsvps: seq<Rsvp>, guests: seq<Guest>, filter: RsvpFilter, failed: bool): (r: seq<RsvpView>)
    ensures failed ==> r == []
    ensures SortedDesc(r, ViewUpdatedAt)
    ensures !failed ==> forall v :: v in r <==> v in Joined(rsvps, guests) && Matches(filter)(v)
    ensures !failed && filter == All ==> multiset(r) == multiset(Joined(rsvps, guests))
    ensures !failed ==> multiset(r) == multiset(Filter(Joined(rsvps, guests), Matches(filter)))
  {
    if failed then []
    else
      var views := Joined(rsvps, guests);
      var kept := Filter(views, Matches(filter));
      KeepAll(views, filter);
      SortDescMembers(kept, ViewUpdatedAt);
      SortDesc(kept, ViewUpdatedAt)
  }

  /** The attendance filters let through only the answers they name. */
  lemma FilteredByAttendance(rsvps: seq<Rsvp>, guests: seq<Guest>, filter: RsvpFilter)
    ensures var r := GetRsvps(rsvps, guests, filter, false);
            && (filter == AttendingOnly ==> forall i :: 0 <= i < |r| ==> r[i].rsvp.attending)
            && (filter == DeclinedOnly ==> forall i :: 0 <= i < |r| ==> !r[i].rsvp.attending)
  {
    var r := GetRsvps(rsvps, guests, filter, false);
    forall i | 0 <= i < |r| ensures Matches(filter)(r[i]) {
      assert r[i] in r;
    }
  }

  lemma KeepAll(views: seq<RsvpView>, filter: RsvpFilter)
    ensures filter == All ==> Filter(views, Matches(filter)) == views
  {
    if filter == All {
      FilterAll(views, Matches(filter));
    }
  }

  function RsvpGuestIds(rsvps: seq<Rsvp>): (ids: set<Option<Id>>)
    ensures forall r :: r in rsvps ==> r.guestId in ids
    ensures forall x :: x in ids ==> exists r :: r in rsvps && r.guestId == x
  {
    set r | r in rsvps :: r.guestId
  }

  function NotIn(ids: set<Option<Id>>): Guest -> bool { (g: Guest) => Some(g.id) !in ids }

  /** A guest no rsvp row points to. */
  function Unanswered(rsvps: seq<Rsvp>): Guest -> bool {
    (g: Guest) => forall x :: x in rsvps ==> x.guestId != Some(g.id)
  }

  /** getPendingRSVPs: the guests, in their order, whose id no rsvp row
      points to. Missing rsvp data counts as no rows; missing guest data gives
      nothing. */
  function PendingGuests(allGuests: Option<seq<Guest>>, rsvps: Option<seq<Rsvp>>): (r: seq<Guest>)
    ensures allGuests.None? ==> r == []
    ensures allGuests.Some? && rsvps.None? ==> r == allGuests.value
    ensures allGuests.Some? && rsvps.Some? ==> r == Filter(allGuests.value, Unanswered(rsvps.value))
    ensures allGuests.Some? ==> Subsequence(r, allGuests.value)
    ensures allGuests.Some? ==> forall g :: g in r <==> g in allGuests.value && (rsvps.Some? ==> forall x :: x in rsvps.value ==> x.guestId != Some(g.id))
  {
    if allGuests.None? then []
    else
      var ids := if rsvps.Some? then RsvpGuestIds(rsvps.value) else {};
      NoneAnswered(allGuests.value, ids);
      SameUnanswered(allGuests.value, rsvps);
      FilterSubsequence(allGuests.value, NotIn(ids));
      Filter(allGuests.value, NotIn(ids))
  }

  /** The id set and the row-by-row condition pick the same guests. */
  lemma SameUnanswered(guests: seq<Guest>, rsvps: Option<seq<Rsvp>>)
    ensures rsvps.Some? ==> Filter(guests, NotIn(RsvpGuestIds(rsvps.value))) == Filter(guests, Unanswered(rsvps.value))
  {
    if rsvps.Some? {
      var rows := rsvps.value;
      var ids := RsvpGuestIds(rows);
      forall i | 0 <= i < |guests| ensures NotIn(ids)(guests[i]) == Unanswered(rows)(guests[i]) {
        var g := guests[i];
        if Some(g.id) in ids {
          var x :| x in rows && x.guestId == Some(g.id);
        }
      }
      FilterSame(guests, NotIn(ids), Unanswered(rows));
    }
  }

  lemma NoneAnswered(guests: seq<Guest>, ids: set<Option<Id>>)
    ensures ids == {} ==> Filter(guests, NotIn(ids)) == guests
  {
    if ids == {} {
      FilterAll(guests, NotIn(ids));
    }
  }

  // ---------------------------------------------------------------------
  // CSV

  /** `String(cell).replace(/"/g, '""')`: every double quote doubled. */
  function DoubleQuotes(s: string): (r: string)
    ensures |r| >= |s|
  {
    if s == [] then []
    else (if s[0] == '"' then "\"\"" else [s[0]]) + DoubleQuotes(s[1..])
  }

  /** A cell as written: in double quotes, with its quotes doubled (section
      2, rule 7 of RFC 4180). */
  function QuoteCell(s: string): (r: string)
    ensures |r| >= 2 && r[0] == '"' && r[|r| - 1] == '"'
  {
    "\"" + DoubleQuotes(s) + "\""
  }

  /** Reads a quoted cell from just after its opening quote: up to the quote
      that is not doubled. Gives the text and what follows the closing quote. */
  function ParseQuoted(s: string): (r: Option<(string, string)>)
    ensures r.Some? ==> |r.value.1| < |s|
  {
    if s == [] then None
    else if s[0] == '"' then
      if |s| >= 2 && s[1] == '"' then
        match ParseQuoted(s[2..])
        case None => None
        case Some(p) => Some(("\"" + p.0, p.1))
      else Some(([], s[1..]))
    else
      match ParseQuoted(s[1..])
      case None => None
      case Some(p) => Some(([s[0]] + p.0, p.1))
  }

  lemma Regroup(a: string, b: string, c: string, d: string)
    ensures a + b + c + d == a + (b + (c + d))
    ensures a + b + c + d == a + (b + c + d)
  {
  }

  /** Doubling the quotes of a cell and closing it is read back as the cell,
      when what follows the closing quote is not a quote. */
  lemma {:induction false} ParseQuotedRoundTrip(c: string, rest: string)
    requires rest == [] || rest[0] != '"'
    ensures ParseQuoted(DoubleQuotes(c) + "\"" + rest) == Some((c, rest))
  {
    if c == [] {
      assert DoubleQuotes(c) + "\"" + rest == "\"" + rest;
    } else {
      var t := DoubleQuotes(c[1..]) + "\"" + rest;
      ParseQuotedRoundTrip(c[1..], rest);
      var head := if c[0] == '"' then "\"\"" else [c[0]];
      assert DoubleQuotes(c) == head + DoubleQuotes(c[1..]);
      Regroup(head, DoubleQuotes(c[1..]), "\"", rest);
      if c[0] == '"' {
        QuotedQuote(t, c[1..], rest);
      } else {
        QuotedPlain(c[0], t, c[1..], rest);
      }
      assert [c[0]] + c[1..] == c;
    }
  }

  /** A doubled quote in front of a quoted cell reads as one quote. */
  lemma QuotedQuote(t: string, v: string, rest: string)
    requires ParseQuoted(t) == Some((v, rest))
    ensures ParseQuoted("\"\"" + t) == Some(("\"" + v, rest))
  {
    var s := "\"\"" + t;
    assert s[0] == '"' && s[1] == '"' && s[2..] == t;
  }

  /** Any other character in front of a quoted cell reads as itself. */
  lemma QuotedPlain(h: char, t: string, v: string, rest: string)
    requires h != '"' && ParseQuoted(t) == Some((v, rest))
    ensures ParseQuoted([h] + t) == Some(([h] + v, rest))
  {
    var s := [h] + t;
    assert s[0] == h && s[1..] == t;
  }

  /** Unquoting a written cell: drop the outer quotes, halve the doubled
      quotes. */
  lemma UnquoteCell(c: string)
    ensures ParseQuoted(QuoteCell(c)[1..]) == Some((c, []))
  {
    assert QuoteCell(c)[1..] == DoubleQuotes(c) + "\"" + [];
    ParseQuotedRoundTrip(c, []);
  }

  /** `row.map(...).join(",")`. */
  function Record(cells: seq<string>): (r: string)
  {
    if cells == [] then []
    else if |cells| == 1 then QuoteCell(cells[0])
    else QuoteCell(cells[0]) + "," + Record(cells[1..])
  }

  /** `.join("\n")` of the records. */
  function Document(rows: seq<seq<string>>): (r: string)
  {
    if rows == [] then []
    else if |rows| == 1 then Record(rows[0])
    else Record(rows[0]) + "\n" + Document(rows[1..])
  }

  /** Reads one record: quoted cells separated by commas, up to a line feed
      (the rest of the document follows) or the end of the text (None). */
  function ParseRecord(s: string): (r: Option<(seq<string>, Option<string>)>)
    ensures r.Some? && r.value.1.Some? ==> |r.value.1.value| < |s|
    decreases |s|
  {
    if s == [] || s[0] != '"' then None
    else
      match ParseQuoted(s[1..])
      case None => None
      case Some(p) =>
        var (cell, rest) := p;
        if rest == [] then Some(([cell], None))
        else if rest[0] == '\n' then Some(([cell], Some(rest[1..])))
        else if rest[0] == ',' then
          match ParseRecord(rest[1..])
          case None => None
          case Some(q) => Some(([cell] + q.0, q.1))
        else None
  }

  /** Reads a whole document, record after record. */
  function ParseDocument(s: string): (r: Option<seq<seq<string>>>)
    decreases |s|
  {
    match ParseRecord(s)
    case None => None
    case Some(p) =>
      match p.1
      case None => Some([p.0])
      case Some(rest) =>
        match ParseDocument(rest)
        case None => None
        case Some(more) => Some([p.0] + more)
  }

  /** How a written cell is read at the head of a record, by what follows it. */
  lemma ParseCell(c: string, rest: string)
    requires rest == [] || rest[0] != '"'
    ensures rest == [] ==> ParseRecord(QuoteCell(c) + rest) == Some(([c], None))
    ensures rest != [] && rest[0] == '\n' ==> ParseRecord(QuoteCell(c) + rest) == Some(([c], Some(rest[1..])))
    ensures rest != [] && rest[0] == ',' && ParseRecord(rest[1..]).Some? ==>
              ParseRecord(QuoteCell(c) + rest) == Some(([c] + ParseRecord(rest[1..]).value.0, ParseRecord(rest[1..]).value.1))
  {
    var s := QuoteCell(c) + rest;
    assert s == "\"" + (DoubleQuotes(c) + "\"" + rest);
    assert s[1..] == DoubleQuotes(c) + "\"" + rest;
    ParseQuotedRoundTrip(c, rest);
  }

  /** What follows a record: nothing, or a line feed and the next records. */
  function After(tail: Option<string>): (r: string)
    ensures tail.None? <==> r == []
  {
    if tail.Some? then "\n" + tail.value else []
  }

  /** A record followed by the end, or by a line feed and more, is read back
      cell by cell. */
  lemma {:induction false} ParseRecordRoundTrip(cells: seq<string>, tail: Option<string>)
    requires cells != []
    ensures ParseRecord(Record(cells) + After(tail)) == Some((cells, tail))
    decreases |cells|
  {
    if |cells| == 1 {
      LastCellRoundTrip(cells[0], tail);
      assert cells == [cells[0]];
    } else {
      ParseRecordRoundTrip(cells[1..], tail);
      NextCellRoundTrip(cells[0], cells[1..], tail);
      assert [cells[0]] + cells[1..] == cells;
    }
  }

  /** The last cell of a record is read back, with what follows it. */
  lemma LastCellRoundTrip(c: string, tail: Option<string>)
    ensures ParseRecord(Record([c]) + After(tail)) == Some(([c], tail))
  {
    var after := After(tail);
    ParseCell(c, after);
    if tail.Some? {
      assert after[1..] == tail.value;
    }
  }

  /** A cell and a comma put in front of a record that reads back. */
  lemma ConsCell(c: string, restRecord: string, more: seq<string>, tail: Option<string>)
    requires ParseRecord(restRecord) == Some((more, tail))
    ensures ParseRecord(QuoteCell(c) + ("," + restRecord)) == Some(([c] + more, tail))
  {
    var rest := "," + restRecord;
    assert rest[0] == ',' && rest[1..] == restRecord;
    ParseCell(c, rest);
  }

  /** A cell put in front of a record that reads back reads back with it. */
  lemma NextCellRoundTrip(c: string, more: seq<string>, tail: Option<string>)
    requires more != []
    requires ParseRecord(Record(more) + After(tail)) == Some((more, tail))
    ensures ParseRecord(Record([c] + more) + After(tail)) == Some(([c] + more, tail))
  {
    var restRecord := Record(more) + After(tail);
    assert Record([c] + more) + After(tail) == QuoteCell(c) + ("," + restRecord) by {
      assert ([c] + more)[1..] == more;
      Regroup(QuoteCell(c), ",", Record(more), After(tail));
    }
    ConsCell(c, restRecord, more, tail);
  }

  /** Every record has at least one cell. */
  predicate NoEmptyRecord(rows: seq<seq<string>>) {
    forall i :: 0 <= i < |rows| ==> rows[i] != []
  }

  /** Reading the exported document gives back its records and their cells. */
  lemma {:induction false} ParseDocumentRoundTrip(rows: seq<seq<string>>)
    requires rows != [] && NoEmptyRecord(rows)
    ensures ParseDocument(Document(rows)) == Some(rows)
    decreases |rows|
  {
    var d := Document(rows);
    if |rows| == 1 {
      ParseRecordRoundTrip(rows[0], None);
      assert Record(rows[0]) + After(None) == d;
      assert ParseRecord(d) == Some((rows[0], None));
      assert rows == [rows[0]];
    } else {
      var more := Document(rows[1..]);
      ParseRecordRoundTrip(rows[0], Some(more));
      assert d == Record(rows[0]) + After(Some(more));
      assert ParseRecord(d) == Some((rows[0], Some(more)));
      assert NoEmptyRecord(rows[1..]) by {
        forall i | 0 <= i < |rows[1..]| ensures rows[1..][i] != [] {
          assert rows[1..][i] == rows[i + 1];
        }
      }
      ParseDocumentRoundTrip(rows[1..]);
      assert ParseDocument(more) == Some(rows[1..]);
      assert [rows[0]] + rows[1..] == rows;
    }
  }

  const Headers: seq<string> := ["Guest Name", "Email", "Phone", "Attending", "Number of Guests",
                                 "Dietary Restrictions", "Message", "RSVP Date"]

  /** `x || ""` of a nullable text column. */
  function OrEmpty(x: Option<string>): (r: string)
    ensures x.Some? ==> r == x.value
    ensures x.None? ==> r == []
  {
    if x.Some? then x.value else []
  }

  /** `String(rsvp.number_of_guests || 1)`. */
  function GuestCountCell(n: Option<int>): (r: string)
    ensures n.None? || n.value == 0 ==> r == "1"
  {
    if n.None? || n.value == 0 then "1" else IntToString(n.value)
  }

  /** The guest count cell reads back: parseInt gives the stored count, or 1
      for a null or 0 count. */
  lemma GuestCountCellReadsBack(n: Option<int>)
    ensures ParseInt(GuestCountCell(n)) == if n.None? || n.value == 0 then Some(1) else n
  {
    if n.None? || n.value == 0 {
      ParseIntOfIntToString(1);
      assert IntToString(1) == "1";
    } else {
      ParseIntOfIntToString(n.value);
    }
  }

  /** The three guest cells of an rsvp row; empty when no guest is joined. */
  function GuestCells(contact: Option<GuestContact>): (cells: seq<string>)
    ensures |cells| == 3
    ensures contact.None? ==> cells[0] == [] && cells[1] == [] && cells[2] == []
    ensures contact.Some? ==>
              cells[0] == contact.value.name && cells[1] == OrEmpty(contact.value.email)
              && cells[2] == OrEmpty(contact.value.phone)
  {
    if contact.Some? then [contact.value.name, OrEmpty(contact.value.email), OrEmpty(contact.value.phone)]
    else [[], [], []]
  }

  /** The five answer cells of an rsvp row. */
  function AnswerCells(r: Rsvp, localeDate: Timestamp -> string): (cells: seq<string>)
    ensures |cells| == 5
    ensures cells[0] == (if r.attending then "Yes" else "No")
    ensures cells[1] == GuestCountCell(r.numberOfGuests)
    ensures cells[2] == OrEmpty(r.dietaryRestrictions) && cells[3] == OrEmpty(r.message)
    ensures cells[4] == localeDate(r.updatedAt)
  {
    [if r.attending then "Yes" else "No", GuestCountCell(r.numberOfGuests), OrEmpty(r.dietaryRestrictions),
     OrEmpty(r.message), localeDate(r.updatedAt)]
  }

  /** The eight cells of an rsvp row. localeDate stands for
      `new Date(...).toLocaleDateString()`. */
  function RowCells(v: RsvpView, localeDate: Timestamp -> string): (cells: seq<string>)
    ensures |cells| == |Headers|
    ensures cells[3] == "Yes" || cells[3] == "No"
    ensures cells[3] == "Yes" <==> v.rsvp.attending
    ensures v.guest.None? ==> cells[0] == [] && cells[1] == [] && cells[2] == []
    ensures v.guest.Some? ==>
              cells[0] == v.guest.value.name && cells[1] == OrEmpty(v.guest.value.email)
              && cells[2] == OrEmpty(v.guest.value.phone)
    ensures cells[4] == GuestCountCell(v.rsvp.numberOfGuests)
    ensures cells[5] == OrEmpty(v.rsvp.dietaryRestrictions) && cells[6] == OrEmpty(v.rsvp.message)
    ensures cells[7] == localeDate(v.rsvp.updatedAt)
  {
    var g, a := GuestCells(v.guest), AnswerCells(v.rsvp, localeDate);
    var cells := g + a;
    assert forall k :: 0 <= k < 3 ==> cells[k] == g[k];
    assert forall k :: 3 <= k < 8 ==> cells[k] == a[k - 3];
    cells
  }

  /** The header record, then one record per row in query order. */
  function CsvRows(views: seq<RsvpView>, localeDate: Timestamp -> string): (rows: seq<seq<string>>)
    ensures |rows| == |views| + 1 && rows[0] == Headers
    ensures forall i :: 0 <= i < |views| ==> rows[i + 1] == RowCells(views[i], localeDate)
  {
    [Headers] + seq(|views|, i requires 0 <= i < |views| => RowCells(views[i], localeDate))
  }

  /** Every record of the export, the header included, has eight cells. */
  lemma EightCells(views: seq<RsvpView>, localeDate: Timestamp -> string)
    ensures var rows := CsvRows(views, localeDate);
            forall i :: 0 <= i < |rows| ==> |rows[i]| == 8
  {
    var rows := CsvRows(views, localeDate);
    forall i | 0 <= i < |rows| ensures |rows[i]| == 8 {
      if i > 0 {
        assert rows[i] == RowCells(views[i - 1], localeDate);
      }
    }
  }

  /** The export has at least the header record, and no record is empty. */
  lemma ExportedRecordsHaveCells(views: seq<RsvpView>, localeDate: Timestamp -> string)
    ensures CsvRows(views, localeDate) != [] && NoEmptyRecord(CsvRows(views, localeDate))
  {
    var rows := CsvRows(views, localeDate);
    EightCells(views, localeDate);
    forall i | 0 <= i < |rows| ensures rows[i] != [] {
      assert |rows[i]| == 8;
    }
  }

  datatype Export = Csv(csv: string) | ExportError(error: string)

  /** exportRSVPsToCSV over the rows getRSVPs("all") reads. */
  function ExportCsv(rsvps: seq<Rsvp>, guests: seq<Guest>, localeDate: Timestamp -> string,
                     readError: Option<string>): (r: Export)
    ensures readError.Some? ==> r == ExportError(readError.value)
    ensures readError.None? ==>
              r.Csv? && ParseDocument(r.csv) == Some(CsvRows(GetRsvps(rsvps, guests, All, false), localeDate))
  {
    if readError.Some? then ExportError(readError.value)
    else
      var rows := CsvRows(GetRsvps(rsvps, guests, All, false), localeDate);
      ExportedRecordsHaveCells(GetRsvps(rsvps, guests, All, false), localeDate);
      ParseDocumentRoundTrip(rows);
      Csv(Document(rows))
  }

  function RsvpIdIsNot(id: Id): Rsvp -> bool { (r: Rsvp) => r.id != id }

  /** deleteRSVP. */
  method DeleteRsvp(db: Database, id: Id, writeError: Option<string>) returns (outcome: Outcome)
    requires db.Valid()
    modifies db
    ensures db.Valid()
    ensures writeError.Some? ==> outcome == Failed(writeError.value) && db.rsvps == old(db.rsvps)
    ensures writeError.None? ==> outcome == Done && db.rsvps == Filter(old(db.rsvps), RsvpIdIsNot(id))
    ensures forall r :: r in db.rsvps <==> r in old(db.rsvps) && (writeError.Some? || r.id != id)
    ensures db.guests == old(db.guests) && db.wishes == old(db.wishes) && db.weddingInfo == old(db.weddingInfo)
    ensures db.nextId == old(db.nextId)
  {
    if writeError.Some? {
      return Failed(writeError.value);
    }
    FilterPairwise(db.rsvps, RsvpIdIsNot(id), RsvpIdsDiffer);
    FilterPairwise(db.rsvps, RsvpIdIsNot(id), RsvpGuestsDiffer);
    db.rsvps := Filter(db.rsvps, RsvpIdIsNot(id));
    outcome := Done;
  }
}
