/** The invitation page's choice of content and of the countdown target
    (components/invitation/MainContent.tsx), with the defaults it falls back
    on (components/invitation/WeddingContext.tsx). */
module MainContent {
  import opened Optional
  import opened Schema

  /** defaultWeddingInfo: the content shown while the real content loads
      or when it could not be read. */
  const DefaultWeddingInfo := WeddingContent(
    "Kim Tu\U{1EA5}n", "Thanh Ng\U{00E2}n", "\U{00DF}",
    Some(""), Some(""), Some(""), None, None, None, None, None, None, None)

  /** `weddingInfo || defaultWeddingInfo`. */
  function ShownInfo(weddingInfo: Option<WeddingContent>): (info: WeddingContent)
    ensures weddingInfo.Some? ==> info == weddingInfo.value
    ensures weddingInfo.None? ==> info == DefaultWeddingInfo
  {
    if weddingInfo.Some? then weddingInfo.value else DefaultWeddingInfo
  }

  const DefaultTime := "16:00:00"

  /** The target handed to the countdown: the date as it is when it already
      holds a 'T', else the date, 'T' and the time, 16:00:00 when the time is
      null or empty. */
  function TargetDate(info: WeddingContent): (r: string)
    ensures 'T' in r
    ensures 'T' in info.weddingDate ==> r == info.weddingDate
    ensures 'T' !in info.weddingDate && info.weddingTime.Some? && info.weddingTime.value != [] ==>
              r == info.weddingDate + "T" + info.weddingTime.value
    ensures 'T' !in info.weddingDate && (info.weddingTime.None? || info.weddingTime.value == []) ==>
              r == info.weddingDate + "T" + DefaultTime
  {
    var date := info.weddingDate;
    if 'T' in date then date
    else
      var time := if info.weddingTime.Some? && info.weddingTime.value != [] then info.weddingTime.value else DefaultTime;
      assert (date + "T" + time)[|date|] == 'T';
      date + "T" + time
  }

  /** A composed target splits back at its first 'T' into the stored date and
      the time used. */
  lemma TargetSplitsAtFirstT(info: WeddingContent)
    requires 'T' !in info.weddingDate
    ensures var r := TargetDate(info);
            var n := |info.weddingDate|;
            && r[..n] == info.weddingDate && r[n] == 'T'
            && (forall i :: 0 <= i < n ==> r[i] != 'T')
            && r[n + 1..] == (if info.weddingTime.Some? && info.weddingTime.value != [] then info.weddingTime.value else DefaultTime)
  {
    var r := TargetDate(info);
    var n := |info.weddingDate|;
    forall i | 0 <= i < n ensures r[i] != 'T' {
      assert r[i] == info.weddingDate[i];
    }
  }

  /** With no content loaded the target is the placeholder date at 16:00. */
  lemma DefaultTarget()
    ensures TargetDate(ShownInfo(None)) == "\U{00DF}T16:00:00"
  {
  }
}
