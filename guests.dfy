/** The guest directory's server actions (app/actions/guests.ts): search,
    slug generation, create, update and delete. */
module GuestActions {
  import opened Optional
  import opened Strings
  import opened Numerals
  import opened Seqs
  import opened Schema

  function GuestCreatedAt(g: Guest): int { g.createdAt }

  /** ILIKE '%search%' on the name column. */
  function NameContains(search: string): Guest -> bool {
    (g: Guest) => ContainsIgnoreCase(g.name, search)
  }

  /** ILIKE 'name' on the name column, no wildcards. */
  function NameIs(name: string): Guest -> bool {
    (g: Guest) => EqualsIgnoreCase(g.name, name)
  }

  function IdIs(id: Id): Guest -> bool { (g: Guest) => g.id == id }

  function IdIsNot(id: Id): Guest -> bool { (g: Guest) => g.id != id }

  /** getGuests: every guest, or when a non-empty search is given the guests
      whose name contains it up to case, newest first; nothing when the query
      fails. */
  function GetGuests(guests: seq<Guest>, search: Option<string>, failed: bool): (r: seq<Guest>)
    ensures failed ==> r == []
    ensures SortedDesc(r, GuestCreatedAt)
    ensures !failed ==> forall g :: g in r <==> g in guests && (search.Some? && search.value != [] ==> ContainsIgnoreCase(g.name, search.value))
    ensures !failed && (search.None? || search.value == []) ==> multiset(r) == multiset(guests)
    ensures !failed && search.Some? && search.value != [] ==>
              multiset(r) == multiset(Filter(guests, NameContains(search.value)))
  {
    if failed then []
    else
      var rows := if search.Some? && search.value != [] then Filter(guests, NameContains(search.value)) else guests;
      var r := SortDesc(rows, GuestCreatedAt);
      SortDescMembers(rows, GuestCreatedAt);
      r
  }

  /** A character `/[^a-z0-9]/` does not match. */
  predicate IsSlugChar(c: char) { 'a' <= c <= 'z' || '0' <= c <= '9' }

  predicate NotSlugChar(c: char) { !IsSlugChar(c) }

  /** `.replace(/(^-|-$)/g, "")`: one hyphen at the start and one at the end
      are removed. */
  function StripEdgeHyphens(s: string): (r: string)
    ensures NoDoubleHyphen(s) ==> r == [] || (r[0] != '-' && r[|r| - 1] != '-')
    ensures NoDoubleHyphen(s) ==> NoDoubleHyphen(r)
    ensures forall i :: 0 <= i < |r| ==> r[i] in s
  {
    var a := if s != [] && s[0] == '-' then s[1..] else s;
    assert |a| > 0 && s != [] && s[0] == '-' ==> a[0] == s[1];
    var r := if a != [] && a[|a| - 1] == '-' then a[..|a| - 1] else a;
    assert forall i :: 0 <= i < |a| ==> a[i] in s;
    r
  }

  /** The part of generateSlug before the timestamp: lower-cased, every run
      of characters outside [a-z0-9] made one hyphen, edge hyphens removed. */
  function SlugBase(name: string): (r: string)
  {
    StripEdgeHyphens(ReplaceRuns(Lower(name), NotSlugChar, false))
  }

  /** generateSlug(name), with Date.now() passed in as nowMs. */
  function GenerateSlug(name: string, nowMs: nat): (r: string)
  {
    SlugBase(name) + "-" + ToRadix(nowMs, 36)
  }

  /** The slug base uses only [a-z0-9-], has no two hyphens in a row, and
      neither starts nor ends with a hyphen. */
  lemma SlugBaseShape(name: string)
    ensures forall i :: 0 <= i < |SlugBase(name)| ==> IsSlugChar(SlugBase(name)[i]) || SlugBase(name)[i] == '-'
    ensures NoDoubleHyphen(SlugBase(name))
    ensures SlugBase(name) == [] || (SlugBase(name)[0] != '-' && SlugBase(name)[|SlugBase(name)| - 1] != '-')
  {
    var t := ReplaceRuns(Lower(name), NotSlugChar, false);
    assert NotSlugChar('-');
    assert forall i :: 0 <= i < |t| ==> IsSlugChar(t[i]) || t[i] == '-';
  }

  /** The text after the last hyphen of s (all of s when it has none). */
  function AfterLastHyphen(s: string): (r: string)
    ensures forall i :: 0 <= i < |r| ==> r[i] != '-'
    decreases |s|
  {
    if s == [] then []
    else if s[|s| - 1] == '-' then []
    else AfterLastHyphen(s[..|s| - 1]) + [s[|s| - 1]]
  }

  /** A string with no hyphen is its own last segment, after any prefix that
      ends with a hyphen. */
  lemma {:induction false} AfterLastHyphenSuffix(p: string, d: string)
    requires forall i :: 0 <= i < |d| ==> d[i] != '-'
    ensures AfterLastHyphen(p + "-" + d) == d
    decreases |d|
  {
    var s := p + "-" + d;
    if d == [] {
      assert s == p + "-";
    } else {
      var d' := d[..|d| - 1];
      assert s[..|s| - 1] == p + "-" + d';
      AfterLastHyphenSuffix(p, d');
      assert d == d' + [d[|d| - 1]];
    }
  }

  /** The last segment of a generated slug is the base-36 timestamp, and
      reading it in base 36 gives the timestamp back. */
  lemma GenerateSlugTimestamp(name: string, nowMs: nat)
    ensures AfterLastHyphen(GenerateSlug(name, nowMs)) == ToRadix(nowMs, 36)
    ensures FromRadix(AfterLastHyphen(GenerateSlug(name, nowMs)), 36) == nowMs
  {
    var d := ToRadix(nowMs, 36);
    assert forall i :: 0 <= i < |d| ==> d[i] != '-';
    AfterLastHyphenSuffix(SlugBase(name), d);
    FromToRadix(nowMs, 36);
  }

  /** The slug createGuest stores: the trimmed slug input when that is not
      blank, otherwise one generated from the name as typed. */
  function ChooseSlug(slugInput: Option<string>, name: string, nowMs: nat): (r: string)
    ensures slugInput.Some? && !IsBlank(slugInput.value) ==> r == Trim(slugInput.value)
    ensures (slugInput.None? || IsBlank(slugInput.value)) ==> r == GenerateSlug(name, nowMs)
  {
    if slugInput.Some? && Trim(slugInput.value) != [] then Trim(slugInput.value) else GenerateSlug(name, nowMs)
  }

  const NameRequired := "Name is required"
  const DuplicateName := "A guest with this name already exists. Please use a unique name."

  /** The guest row createGuest inserts. */
  function NewGuest(id: Id, name: string, slugInput: Option<string>, email: Option<string>,
                    phone: Option<string>, groupName: Option<string>, nowMs: nat, now: Timestamp): Guest
  {
    Guest(id, Trim(name), ChooseSlug(slugInput, name, nowMs), OrNull(email), OrNull(phone), OrNull(groupName),
          None, now, now)
  }

  /** What createGuest does to the guests table and what it returns. newId
      is the id the store would give the row; writeError a failure of the
      insert. */
  function CreateGuestEffect(guests: seq<Guest>, name: Option<string>, slugInput: Option<string>,
                             email: Option<string>, phone: Option<string>, groupName: Option<string>,
                             nowMs: nat, now: Timestamp, newId: Id, writeError: Option<string>): (r: (seq<Guest>, Outcome))
    ensures r.1.Done? <==> name.Some? && !IsBlank(name.value) && Single(guests, NameIs(Trim(name.value))).None? && writeError.None?
    ensures r.1.Done? ==> r.0 == guests + [NewGuest(newId, name.value, slugInput, email, phone, groupName, nowMs, now)]
    ensures r.1.Failed? ==> r.0 == guests
    ensures (name.None? || IsBlank(name.value)) ==> r.1 == Failed(NameRequired)
    ensures name.Some? && !IsBlank(name.value) && Count(guests, NameIs(Trim(name.value))) == 1 ==> r.1 == Failed(DuplicateName)
    ensures name.Some? && !IsBlank(name.value) && Single(guests, NameIs(Trim(name.value))).None? && writeError.Some? ==>
              r.1 == Failed(writeError.value)
  {
    if name.None? || Trim(name.value) == [] then (guests, Failed(NameRequired))
    else if Single(guests, NameIs(Trim(name.value))).Some? then (guests, Failed(DuplicateName))
    else if writeError.Some? then (guests, Failed(writeError.value))
    else (guests + [NewGuest(newId, name.value, slugInput, email, phone, groupName, nowMs, now)], Done)
  }

  /** A stored guest name is trimmed, so once a guest is created the same
      name typed again, with other spacing or case, is refused as a
      duplicate. */
  lemma CreateTwiceIsDuplicate(guests: seq<Guest>, name: string, name2: string, slugInput: Option<string>,
                               email: Option<string>, phone: Option<string>, groupName: Option<string>,
                               nowMs: nat, now: Timestamp, newId: Id,
                               slugInput2: Option<string>, nowMs2: nat, now2: Timestamp, newId2: Id)
    requires !IsBlank(name)
    requires forall i :: 0 <= i < |guests| ==> !EqualsIgnoreCase(guests[i].name, Trim(name))
    requires EqualsIgnoreCase(Trim(name), Trim(name2)) && !IsBlank(name2)
    ensures CreateGuestEffect(guests, Some(name), slugInput, email, phone, groupName, nowMs, now, newId, None).1 == Done
    ensures CreateGuestEffect(CreateGuestEffect(guests, Some(name), slugInput, email, phone, groupName, nowMs, now, newId, None).0,
                              Some(name2), slugInput2, email, phone, groupName, nowMs2, now2, newId2, None).1 == Failed(DuplicateName)
  {
    var g := NewGuest(newId, name, slugInput, email, phone, groupName, nowMs, now);
    var first := CreateGuestEffect(guests, Some(name), slugInput, email, phone, groupName, nowMs, now, newId, None);
    assert Single(guests, NameIs(Trim(name))).None? by {
      FilterNone(guests, NameIs(Trim(name)));
    }
    assert first == (guests + [g], Done);
    NameTakenAfterInsert(guests, g, Trim(name), Trim(name2));
  }

  /** Once a row with name n is added to rows none of which has that name up
      to case, a lookup of a name equal to n up to case finds that row. */
  lemma NameTakenAfterInsert(guests: seq<Guest>, g: Guest, n: string, n2: string)
    requires forall i :: 0 <= i < |guests| ==> !EqualsIgnoreCase(guests[i].name, n)
    requires g.name == n && EqualsIgnoreCase(n, n2)
    ensures Single(guests + [g], NameIs(n2)) == Some(g)
  {
    var after := guests + [g];
    var p := NameIs(n2);
    forall i | 0 <= i < |after| && i != |guests| ensures !p(after[i]) {
      assert after[i] == guests[i];
    }
    SingleUnique(after, p, |guests|);
  }

  /** getGuestById: the guest with that id, or null when there is none or
      the read fails (failed). */
  function GetGuestById(guests: seq<Guest>, id: Id, failed: bool): (r: Option<Guest>)
    requires Pairwise(guests, GuestIdsDiffer)
    ensures failed ==> r.None?
    ensures r.Some? ==> r.value in guests && r.value.id == id
    ensures !failed && r.None? ==> forall g :: g in guests ==> g.id != id
  {
    if failed then None
    else
      IdLookup(guests, id);
      Single(guests, IdIs(id))
  }

  /** Ids are distinct, so a guest with that id is the only one. */
  lemma IdLookup(guests: seq<Guest>, id: Id)
    requires Pairwise(guests, GuestIdsDiffer)
    ensures Single(guests, IdIs(id)).None? ==> forall g :: g in guests ==> g.id != id
  {
    forall g | g in guests && g.id == id ensures Single(guests, IdIs(id)).Some? {
      var k :| 0 <= k < |guests| && guests[k] == g;
      assert forall i :: 0 <= i < |guests| && i != k ==> !IdIs(id)(guests[i]) by {
        forall i | 0 <= i < |guests| && i != k ensures guests[i].id != id {
          if i < k { assert GuestIdsDiffer(guests[i], guests[k]); }
          else { assert GuestIdsDiffer(guests[k], guests[i]); }
        }
      }
      SingleUnique(guests, IdIs(id), k);
    }
  }

  /** The row updateGuest writes over g: name verbatim, email, phone and group
      with empty strings made null, the trimmed slug only when one that is
      not blank is given, and the update time. */
  function UpdatedGuest(g: Guest, name: string, slug: Option<string>, email: Option<string>,
                        phone: Option<string>, groupName: Option<string>, now: Timestamp): (r: Guest)
    ensures r.id == g.id && r.createdAt == g.createdAt && r.invitationSent == g.invitationSent
    ensures r.name == name && r.updatedAt == now
    ensures r.email == OrNull(email) && r.phone == OrNull(phone) && r.groupName == OrNull(groupName)
    ensures r.slug == if slug.Some? && !IsBlank(slug.value) then Trim(slug.value) else g.slug
  {
    var withSlug := if slug.Some? && Trim(slug.value) != [] then g.(slug := Trim(slug.value)) else g;
    withSlug.(name := name, email := OrNull(email), phone := OrNull(phone), groupName := OrNull(groupName),
              updatedAt := now)
  }

  /** What updateGuest does to the guests table: the row with that id is
      rewritten, every other row is left alone; no check is made of the
      name. */
  function UpdateGuestEffect(guests: seq<Guest>, id: Id, name: string, slug: Option<string>, email: Option<string>,
                             phone: Option<string>, groupName: Option<string>, now: Timestamp,
                             writeError: Option<string>): (r: (seq<Guest>, Outcome))
    ensures writeError.Some? ==> r == (guests, Failed(writeError.value))
    ensures writeError.None? ==> r.1 == Done
    ensures |r.0| == |guests|
    ensures forall i :: 0 <= i < |guests| ==> r.0[i].id == guests[i].id
    ensures forall i :: 0 <= i < |guests| && (guests[i].id != id || writeError.Some?) ==> r.0[i] == guests[i]
    ensures writeError.None? ==> forall i :: 0 <= i < |guests| && guests[i].id == id ==>
              r.0[i] == UpdatedGuest(guests[i], name, slug, email, phone, groupName, now)
  {
    if writeError.Some? then (guests, Failed(writeError.value))
    else
      (seq(|guests|, i requires 0 <= i < |guests| =>
         if guests[i].id == id then UpdatedGuest(guests[i], name, slug, email, phone, groupName, now) else guests[i]),
       Done)
  }

  /** Sending the same update again changes nothing more. */
  lemma UpdateGuestIdempotent(guests: seq<Guest>, id: Id, name: string, slug: Option<string>, email: Option<string>,
                              phone: Option<string>, groupName: Option<string>, now: Timestamp)
    ensures var once := UpdateGuestEffect(guests, id, name, slug, email, phone, groupName, now, None).0;
            UpdateGuestEffect(once, id, name, slug, email, phone, groupName, now, None).0 == once
  {
    var once := UpdateGuestEffect(guests, id, name, slug, email, phone, groupName, now, None).0;
    var twice := UpdateGuestEffect(once, id, name, slug, email, phone, groupName, now, None).0;
    forall i | 0 <= i < |guests| ensures twice[i] == once[i] {
      if guests[i].id == id {
        var g := once[i];
        if slug.Some? && !IsBlank(slug.value) {
          TrimIdempotent(slug.value);
        }
        assert UpdatedGuest(g, name, slug, email, phone, groupName, now) == g;
      }
    }
  }

  /** What deleteGuest does to the guests table: the row with that id goes,
      the others stay in their order, each once. */
  function DeleteGuestEffect(guests: seq<Guest>, id: Id, writeError: Option<string>): (r: (seq<Guest>, Outcome))
    ensures writeError.Some? ==> r == (guests, Failed(writeError.value))
    ensures writeError.None? ==> r.1 == Done && forall g :: g in r.0 <==> g in guests && g.id != id
    ensures writeError.None? ==> r.0 == Filter(guests, IdIsNot(id)) && Subsequence(r.0, guests)
  {
    if writeError.Some? then (guests, Failed(writeError.value))
    else
      FilterSubsequence(guests, IdIsNot(id));
      (Filter(guests, IdIsNot(id)), Done)
  }

  /** Deleting an id no guest has changes nothing. */
  lemma DeleteUnknownGuest(guests: seq<Guest>, id: Id)
    requires forall g :: g in guests ==> g.id != id
    ensures DeleteGuestEffect(guests, id, None).0 == guests
  {
    FilterAll(guests, IdIsNot(id));
  }

  /** createGuest. The name check, the duplicate lookup, the slug choice and
      the insert happen in that order; nothing is written unless all pass. */
  method CreateGuest(db: Database, name: Option<string>, slugInput: Option<string>, email: Option<string>,
                     phone: Option<string>, groupName: Option<string>, nowMs: nat, now: Timestamp,
                     writeError: Option<string>) returns (outcome: Outcome)
    requires db.Valid()
    modifies db`guests, db`nextId
    ensures db.Valid()
    ensures (db.guests, outcome) == CreateGuestEffect(old(db.guests), name, slugInput, email, phone, groupName,
                                                      nowMs, now, old(db.nextId), writeError)
  {
    if name.None? || Trim(name.value) == [] {
      return Failed(NameRequired);
    }
    var trimmed := Trim(name.value);
    var existing := Single(db.guests, NameIs(trimmed));
    if existing.Some? {
      return Failed(DuplicateName);
    }
    var slug := ChooseSlug(slugInput, name.value, nowMs);
    if writeError.Some? {
      return Failed(writeError.value);
    }
    var g := InsertGuest(db, trimmed, slug, OrNull(email), OrNull(phone), OrNull(groupName), now);
    outcome := Done;
  }

  /** The insert of createGuest: the store gives the row the next id and
      stamps both times with now; invitation_sent starts unset. */
  method InsertGuest(db: Database, name: string, slug: string, email: Option<string>, phone: Option<string>,
                     groupName: Option<string>, now: Timestamp) returns (g: Guest)
    requires db.Valid()
    modifies db`guests, db`nextId
    ensures db.Valid()
    ensures g == Guest(old(db.nextId), name, slug, email, phone, groupName, None, now, now)
    ensures db.guests == old(db.guests) + [g] && db.nextId == old(db.nextId) + 1
  {
    var id := db.NewId();
    g := Guest(id, name, slug, email, phone, groupName, None, now, now);
    GuestAppended(db.guests, db.rsvps, db.wishes, db.weddingInfo, g);
    db.guests := db.guests + [g];
  }

  /** updateGuest. */
  method UpdateGuest(db: Database, id: Id, name: string, slug: Option<string>, email: Option<string>,
                     phone: Option<string>, groupName: Option<string>, now: Timestamp,
                     writeError: Option<string>) returns (outcome: Outcome)
    requires db.Valid()
    modifies db
    ensures db.Valid()
    ensures (db.guests, outcome) == UpdateGuestEffect(old(db.guests), id, name, slug, email, phone, groupName, now, writeError)
    ensures db.rsvps == old(db.rsvps) && db.wishes == old(db.wishes) && db.weddingInfo == old(db.weddingInfo)
    ensures db.nextId == old(db.nextId)
  {
    if writeError.Some? {
      return Failed(writeError.value);
    }
    var before := db.guests;
    var after := UpdateGuestEffect(before, id, name, slug, email, phone, groupName, now, None).0;
    forall g | g in after ensures g.id < db.nextId {
      var i :| 0 <= i < |after| && after[i] == g;
      assert before[i] in before;
    }
    assert Pairwise(after, GuestIdsDiffer) by {
      forall i, j | 0 <= i < j < |after| ensures GuestIdsDiffer(after[i], after[j]) {
        assert GuestIdsDiffer(before[i], before[j]);
      }
    }
    db.guests := after;
    outcome := Done;
  }

  /** deleteGuest. The rsvp rows of the guest are not touched here. */
  method DeleteGuest(db: Database, id: Id, writeError: Option<string>) returns (outcome: Outcome)
    requires db.Valid()
    modifies db
    ensures db.Valid()
    ensures (db.guests, outcome) == DeleteGuestEffect(old(db.guests), id, writeError)
    ensures db.rsvps == old(db.rsvps) && db.wishes == old(db.wishes) && db.weddingInfo == old(db.weddingInfo)
    ensures db.nextId == old(db.nextId)
  {
    if writeError.Some? {
      return Failed(writeError.value);
    }
    FilterPairwise(db.guests, IdIsNot(id), GuestIdsDiffer);
    db.guests := Filter(db.guests, IdIsNot(id));
    outcome := Done;
  }
}
