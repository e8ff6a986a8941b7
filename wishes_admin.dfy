/** The admin side of wishes (app/actions/wishes-admin.ts): the moderation
    list, approving and unapproving, deleting and editing the message. */
module WishesAdmin {
  import opened Optional
  import opened Seqs
  import opened Schema
  import WishesRoute

  /** The filter argument of getWishes; All also stands for no argument. */
  datatype WishFilter = All | Pending | Approved

  function Matches(filter: WishFilter): Wish -> bool {
    (w: Wish) => match filter
      case All => true
      case Pending => w.isApproved == Some(false)
      case Approved => w.isApproved == Some(true)
  }

  function WishCreatedAt(w: Wish): int { w.createdAt }

  /** getWishes: the rows the filter lets through, newest first; nothing when
      the query fails. A wish whose is_approved is null is neither pending nor
      approved. */
  function GetWishes(wishes: seq<Wish>, filter: WishFilter, failed: bool): (r: seq<Wish>)
    ensures failed ==> r == []
    ensures SortedDesc(r, WishCreatedAt)
    ensures !failed ==> forall w :: w in r <==> w in wishes && Matches(filter)(w)
    ensures !failed && filter == All ==> multiset(r) == multiset(wishes)
    ensures !failed ==> multiset(r) == multiset(Filter(wishes, Matches(filter)))
  {
    if failed then []
    else
      var kept := Filter(wishes, Matches(filter));
      KeepAll(wishes, filter);
      SortDescMembers(kept, WishCreatedAt);
      SortDesc(kept, WishCreatedAt)
  }

  lemma KeepAll(wishes: seq<Wish>, filter: WishFilter)
    ensures filter == All ==> Filter(wishes, Matches(filter)) == wishes
  {
    if filter == All {
      FilterAll(wishes, Matches(filter));
    }
  }

  /** A wish with a null is_approved shows in no filtered list. */
  lemma NullApprovalHidden(wishes: seq<Wish>, w: Wish)
    requires w.isApproved.None?
    ensures w !in GetWishes(wishes, Pending, false) && w !in GetWishes(wishes, Approved, false)
  {
  }

  /** `update({ is_approved: flag }).eq("id", id)`: every row with that id
      gets the flag, everything else stays. */
  function SetApproval(wishes: seq<Wish>, id: Id, flag: bool): (r: seq<Wish>)
    ensures |r| == |wishes|
    ensures forall i :: 0 <= i < |r| ==> r[i].id == wishes[i].id
    ensures forall i :: 0 <= i < |r| && wishes[i].id == id ==> r[i] == wishes[i].(isApproved := Some(flag))
    ensures forall i :: 0 <= i < |r| && wishes[i].id != id ==> r[i] == wishes[i]
  {
    seq(|wishes|, i requires 0 <= i < |wishes| =>
      if wishes[i].id == id then wishes[i].(isApproved := Some(flag)) else wishes[i])
  }

  /** `update({ message }).eq("id", id)`. */
  function SetMessage(wishes: seq<Wish>, id: Id, message: string): (r: seq<Wish>)
    ensures |r| == |wishes|
    ensures forall i :: 0 <= i < |r| ==> r[i].id == wishes[i].id
    ensures forall i :: 0 <= i < |r| && wishes[i].id == id ==> r[i] == wishes[i].(message := message)
    ensures forall i :: 0 <= i < |r| && wishes[i].id != id ==> r[i] == wishes[i]
  {
    seq(|wishes|, i requires 0 <= i < |wishes| =>
      if wishes[i].id == id then wishes[i].(message := message) else wishes[i])
  }

  function WishIdIsNot(id: Id): Wish -> bool { (w: Wish) => w.id != id }

  /** Setting the flag twice is setting it once. */
  lemma SetApprovalIdempotent(wishes: seq<Wish>, id: Id, flag: bool)
    ensures SetApproval(SetApproval(wishes, id, flag), id, flag) == SetApproval(wishes, id, flag)
  {
  }

  /** The last approval decision wins: approving and then unapproving is
      unapproving, and the other way round. */
  lemma LastDecisionWins(wishes: seq<Wish>, id: Id, first: bool, second: bool)
    ensures SetApproval(SetApproval(wishes, id, first), id, second) == SetApproval(wishes, id, second)
  {
  }

  /** An id no row has leaves the table as it is. */
  lemma UnknownWish(wishes: seq<Wish>, id: Id, flag: bool, message: string)
    requires forall i :: 0 <= i < |wishes| ==> wishes[i].id != id
    ensures SetApproval(wishes, id, flag) == wishes
    ensures SetMessage(wishes, id, message) == wishes
    ensures Filter(wishes, WishIdIsNot(id)) == wishes
  {
    FilterAll(wishes, WishIdIsNot(id));
  }

  /** Approving a wish puts it on the public wall; unapproving takes it off. */
  lemma ApprovalDecidesPublic(wishes: seq<Wish>, k: nat, flag: bool)
    requires k < |wishes| && Pairwise(wishes, WishIdsDiffer)
    ensures var after := SetApproval(wishes, wishes[k].id, flag);
            (after[k] in WishesRoute.PublicWishes(after)) <==> flag
  {
    var after := SetApproval(wishes, wishes[k].id, flag);
    if !flag {
      assert after[k].isApproved == Some(false);
    }
  }

  /** A message edit changes only that wish's message. */
  lemma EditKeepsApproval(wishes: seq<Wish>, k: nat, message: string)
    requires k < |wishes|
    ensures var after := SetMessage(wishes, wishes[k].id, message);
            after[k].message == message && after[k].isApproved == wishes[k].isApproved &&
            after[k].guestName == wishes[k].guestName && after[k].createdAt == wishes[k].createdAt
  {
  }

  /** Rewriting rows in place without touching ids keeps the table's ids
      distinct and below the counter. */
  lemma SameIds(before: seq<Wish>, after: seq<Wish>, nextId: nat)
    requires |after| == |before| && forall i :: 0 <= i < |after| ==> after[i].id == before[i].id
    requires Pairwise(before, WishIdsDiffer) && forall w :: w in before ==> w.id < nextId
    ensures Pairwise(after, WishIdsDiffer) && forall w :: w in after ==> w.id < nextId
  {
    forall w | w in after ensures w.id < nextId {
      var i :| 0 <= i < |after| && after[i] == w;
      assert before[i] in before;
    }
  }

  /** approveWish (flag true) and unapproveWish (flag false). */
  method SetApprovalOf(db: Database, id: Id, flag: bool, writeError: Option<string>) returns (outcome: Outcome)
    requires db.Valid()
    modifies db`wishes
    ensures db.Valid()
    ensures writeError.Some? ==> outcome == Failed(writeError.value) && db.wishes == old(db.wishes)
    ensures writeError.None? ==> outcome == Done && db.wishes == SetApproval(old(db.wishes), id, flag)
  {
    if writeError.Some? {
      return Failed(writeError.value);
    }
    SameIds(db.wishes, SetApproval(db.wishes, id, flag), db.nextId);
    db.wishes := SetApproval(db.wishes, id, flag);
    outcome := Done;
  }

  method ApproveWish(db: Database, id: Id, writeError: Option<string>) returns (outcome: Outcome)
    requires db.Valid()
    modifies db`wishes
    ensures db.Valid()
    ensures writeError.Some? ==> outcome == Failed(writeError.value) && db.wishes == old(db.wishes)
    ensures writeError.None? ==> outcome == Done && db.wishes == SetApproval(old(db.wishes), id, true)
  {
    outcome := SetApprovalOf(db, id, true, writeError);
  }

  method UnapproveWish(db: Database, id: Id, writeError: Option<string>) returns (outcome: Outcome)
    requires db.Valid()
    modifies db`wishes
    ensures db.Valid()
    ensures writeError.Some? ==> outcome == Failed(writeError.value) && db.wishes == old(db.wishes)
    ensures writeError.None? ==> outcome == Done && db.wishes == SetApproval(old(db.wishes), id, false)
  {
    outcome := SetApprovalOf(db, id, false, writeError);
  }

  /** deleteWish. */
  method DeleteWish(db: Database, id: Id, writeError: Option<string>) returns (outcome: Outcome)
    requires db.Valid()
    modifies db`wishes
    ensures db.Valid()
    ensures writeError.Some? ==> outcome == Failed(writeError.value) && db.wishes == old(db.wishes)
    ensures writeError.None? ==> outcome == Done && db.wishes == Filter(old(db.wishes), WishIdIsNot(id))
    ensures forall w :: w in db.wishes <==> w in old(db.wishes) && (writeError.Some? || w.id != id)
  {
    if writeError.Some? {
      return Failed(writeError.value);
    }
    FilterPairwise(db.wishes, WishIdIsNot(id), WishIdsDiffer);
    db.wishes := Filter(db.wishes, WishIdIsNot(id));
    outcome := Done;
  }

  /** updateWishMessage. */
  method UpdateWishMessage(db: Database, id: Id, message: string, writeError: Option<string>)
    returns (outcome: Outcome)
    requires db.Valid()
    modifies db`wishes
    ensures db.Valid()
    ensures writeError.Some? ==> outcome == Failed(writeError.value) && db.wishes == old(db.wishes)
    ensures writeError.None? ==> outcome == Done && db.wishes == SetMessage(old(db.wishes), id, message)
  {
    if writeError.Some? {
      return Failed(writeError.value);
    }
    SameIds(db.wishes, SetMessage(db.wishes, id, message), db.nextId);
    db.wishes := SetMessage(db.wishes, id, message);
    outcome := Done;
  }
}
