/** The wedding content singleton (app/actions/content.ts): reading the
    first wedding_info row and saving the content form over it, or as a new
    row when there is none. */
module Content {
  import opened Optional
  import opened Seqs
  import opened Schema

  /** getWeddingInfo: the first row; nothing when the table is empty or the
      read fails. */
  function GetWeddingInfo(info: seq<WeddingInfo>, readError: bool): (r: Option<WeddingInfo>)
    ensures r.Some? <==> !readError && info != []
    ensures r.Some? ==> r.value == info[0]
  {
    if readError || info == [] then None else Some(info[0])
  }

  /** The id updateWeddingInfo finds first: the first row's id, or nothing
      when the table is empty or that read fails. */
  function ExistingId(info: seq<WeddingInfo>, readError: bool): (r: Option<Id>)
    ensures r.Some? <==> !readError && info != []
    ensures r.Some? ==> r.value == info[0].id
  {
    if readError || info == [] then None else Some(info[0].id)
  }

  /** `update(updateData).eq("id", id)`: every row with that id takes the
      form's content and the update time; nothing is kept from its old
      content. */
  function ReplaceContent(info: seq<WeddingInfo>, id: Id, content: WeddingContent, now: Timestamp): (r: seq<WeddingInfo>)
    ensures |r| == |info|
    ensures forall i :: 0 <= i < |r| ==> r[i].id == info[i].id && r[i].createdAt == info[i].createdAt
    ensures forall i :: 0 <= i < |r| && info[i].id == id ==> r[i].content == content && r[i].updatedAt == now
    ensures forall i :: 0 <= i < |r| && info[i].id != id ==> r[i] == info[i]
  {
    seq(|info|, i requires 0 <= i < |info| =>
      if info[i].id == id then info[i].(content := content, updatedAt := now) else info[i])
  }

  /** What updateWeddingInfo does to the table and what it answers. readError
      stands for the first read failing, newId for the id the store would give
      an inserted row, writeError for the update or insert failing. */
  function UpdateWeddingInfoEffect(info: seq<WeddingInfo>, content: WeddingContent, now: Timestamp,
                                   readError: bool, newId: Id, writeError: Option<string>)
    : (r: (seq<WeddingInfo>, Outcome))
    ensures writeError.Some? ==> r == (info, Failed(writeError.value))
    ensures writeError.None? ==> r.1 == Done
    ensures writeError.None? && ExistingId(info, readError).Some? ==>
              r.0 == ReplaceContent(info, info[0].id, content, now) && |r.0| == |info|
    ensures writeError.None? && ExistingId(info, readError).None? ==>
              r.0 == info + [WeddingInfo(newId, content, now, now)]
  {
    var existing := ExistingId(info, readError);
    if writeError.Some? then (info, Failed(writeError.value))
    else if existing.Some? then (ReplaceContent(info, existing.value, content, now), Done)
    else (info + [WeddingInfo(newId, content, now, now)], Done)
  }

  /** Saving over at most one row leaves exactly one row, and reading it
      back gives the saved content. */
  lemma SaveKeepsSingleton(info: seq<WeddingInfo>, content: WeddingContent, now: Timestamp, newId: Id)
    requires |info| <= 1
    ensures var (after, outcome) := UpdateWeddingInfoEffect(info, content, now, false, newId, None);
            && outcome == Done && |after| == 1
            && GetWeddingInfo(after, false).Some? && GetWeddingInfo(after, false).value.content == content
            && GetWeddingInfo(after, false).value.updatedAt == now
  {
    var (after, _) := UpdateWeddingInfoEffect(info, content, now, false, newId, None);
    if info != [] {
      assert after == ReplaceContent(info, info[0].id, content, now);
      assert after[0].content == content;
    } else {
      assert after == [WeddingInfo(newId, content, now, now)];
    }
  }

  /** A save that cannot read the existing row inserts a second one. */
  lemma ReadFailureAddsRow(info: seq<WeddingInfo>, content: WeddingContent, now: Timestamp, newId: Id)
    requires |info| == 1
    ensures |UpdateWeddingInfoEffect(info, content, now, true, newId, None).0| == 2
  {
  }

  /** updateWeddingInfo. */
  method UpdateWeddingInfo(db: Database, content: WeddingContent, now: Timestamp, readError: bool,
                           writeError: Option<string>) returns (outcome: Outcome)
    requires db.Valid()
    modifies db`weddingInfo, db`nextId
    ensures db.Valid()
    ensures (db.weddingInfo, outcome) == UpdateWeddingInfoEffect(old(db.weddingInfo), content, now, readError,
                                                                 old(db.nextId), writeError)
  {
    var existing := ExistingId(db.weddingInfo, readError);
    var error: Option<string>;
    if existing.Some? {
      error := writeError;
      if error.None? {
        var after := ReplaceContent(db.weddingInfo, existing.value, content, now);
        SameIds(db.weddingInfo, after, db.nextId);
        db.weddingInfo := after;
      }
    } else {
      error := writeError;
      if error.None? {
        var id := db.NewId();
        var row := WeddingInfo(id, content, now, now);
        InfoAppended(db.guests, db.rsvps, db.wishes, db.weddingInfo, row);
        db.weddingInfo := db.weddingInfo + [row];
      }
    }
    if error.Some? {
      return Failed(error.value);
    }
    outcome := Done;
  }

  lemma SameIds(before: seq<WeddingInfo>, after: seq<WeddingInfo>, nextId: nat)
    requires |after| == |before| && forall i :: 0 <= i < |after| ==> after[i].id == before[i].id
    requires Pairwise(before, InfoIdsDiffer) && forall w :: w in before ==> w.id < nextId
    ensures Pairwise(after, InfoIdsDiffer) && forall w :: w in after ==> w.id < nextId
  {
    forall w | w in after ensures w.id < nextId {
      var i :| 0 <= i < |after| && after[i] == w;
      assert before[i] in before;
    }
  }
}
