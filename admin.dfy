/** The dashboard (app/actions/admin.ts): table totals, the attendance split
    and the five most recent RSVPs and wishes. */
module Admin {
  import opened Optional
  import opened Seqs
  import opened Schema
  import RsvpAdmin

  /** The figures getDashboardStats returns. */
  datatype DashboardStats = DashboardStats(totalGuests: nat, totalRsvps: nat, totalWishes: nat,
                                           attendingCount: nat, declinedCount: nat)

  function IsAttending(r: Rsvp): bool { r.attending }
  function IsDeclining(r: Rsvp): bool { !r.attending }

  /** `result.count || 0`: the row count, 0 when the read failed. */
  function CountOr0<T>(rows: Option<seq<T>>): (n: nat)
    ensures rows.None? ==> n == 0
    ensures rows.Some? ==> n == |rows.value|
  {
    if rows.Some? then |rows.value| else 0
  }

  /** getDashboardStats over the three reads; None stands for a read that
      failed (no count and no data). */
  function GetDashboardStats(guests: Option<seq<Guest>>, rsvps: Option<seq<Rsvp>>, wishes: Option<seq<Wish>>)
    : (s: DashboardStats)
    ensures s.totalGuests == CountOr0(guests) && s.totalWishes == CountOr0(wishes)
    ensures s.totalRsvps == CountOr0(rsvps)
    ensures s.attendingCount + s.declinedCount == s.totalRsvps
    ensures rsvps.None? ==> s.attendingCount == 0 && s.declinedCount == 0
    ensures rsvps.Some? ==> s.attendingCount == Count(rsvps.value, IsAttending)
    ensures rsvps.Some? ==> s.declinedCount == Count(rsvps.value, IsDeclining)
  {
    var attending := if rsvps.Some? then Count(rsvps.value, IsAttending) else 0;
    var declined := if rsvps.Some? then Count(rsvps.value, IsDeclining) else 0;
    AttendanceSplit(rsvps);
    DashboardStats(CountOr0(guests), CountOr0(rsvps), CountOr0(wishes), attending, declined)
  }

  lemma AttendanceSplit(rsvps: Option<seq<Rsvp>>)
    ensures rsvps.Some? ==> Count(rsvps.value, IsAttending) + Count(rsvps.value, IsDeclining) == |rsvps.value|
  {
    if rsvps.Some? {
      CountSplit(rsvps.value, IsAttending, IsDeclining);
    }
  }

  /** One more rsvp row adds one to the attending count when it attends and
      one to the declined count otherwise. */
  lemma AttendingCountsRows(rsvps: seq<Rsvp>, x: Rsvp)
    ensures Count(rsvps + [x], IsAttending) == Count(rsvps, IsAttending) + (if x.attending then 1 else 0)
    ensures Count(rsvps + [x], IsDeclining) == Count(rsvps, IsDeclining) + (if x.attending then 0 else 1)
  {
    FilterAppend(rsvps, [x], IsAttending);
    FilterAppend(rsvps, [x], IsDeclining);
    assert [x][1..] == [];
  }

  function ViewUpdatedAt(v: RsvpView): int { v.rsvp.updatedAt }
  function WishCreatedAt(w: Wish): int { w.createdAt }

  /** The two lists getRecentActivity returns. */
  datatype RecentActivity = RecentActivity(recentRsvps: seq<RsvpView>, recentWishes: seq<Wish>)

  /** getRecentActivity: the five most recently updated RSVPs with their guest
      and the five newest wishes (approved or not); a failed read gives an
      empty list. */
  function GetRecentActivity(rsvps: Option<seq<Rsvp>>, guests: seq<Guest>, wishes: Option<seq<Wish>>)
    : (a: RecentActivity)
    ensures rsvps.None? ==> a.recentRsvps == []
    ensures wishes.None? ==> a.recentWishes == []
    ensures |a.recentRsvps| <= 5 && |a.recentWishes| <= 5
    ensures SortedDesc(a.recentRsvps, ViewUpdatedAt) && SortedDesc(a.recentWishes, WishCreatedAt)
    ensures rsvps.Some? ==> a.recentRsvps == Take(SortDesc(RsvpAdmin.Joined(rsvps.value, guests), ViewUpdatedAt), 5)
    ensures wishes.Some? ==> a.recentWishes == Take(SortDesc(wishes.value, WishCreatedAt), 5)
    ensures wishes.Some? ==> forall w :: w in wishes.value ==>
              w in a.recentWishes || forall i :: 0 <= i < |a.recentWishes| ==> w.createdAt <= a.recentWishes[i].createdAt
  {
    var recentRsvps := if rsvps.Some? then Newest(RsvpAdmin.Joined(rsvps.value, guests), ViewUpdatedAt, 5) else [];
    var recentWishes := if wishes.Some? then Newest(wishes.value, WishCreatedAt, 5) else [];
    RecentActivity(recentRsvps, recentWishes)
  }
}
