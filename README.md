# my-wedding: a Dafny model of the invitation site's logic

The site is a wedding invitation with an admin back office. Guests open a
personal invitation link (`/invitation?guest=<slug>`), answer an RSVP and leave
wishes on a public board; the couple manage the guest list, moderate wishes,
edit the wedding content, and read RSVP statistics and a CSV export. The data
lives in four tables of a hosted store: `guests`, `rsvp`, `wishes` and
`wedding_info`.

This project models the server actions and route handlers that read and write
those tables, and the small pieces of client logic with real behaviour: the
two slugifiers, the guest form's auto-slug state, the guest table's RSVP
status and invitation link, the countdown and month calendar, and the choice
of the countdown target.

Layout, one module per source file plus shared modules:

| file | module | models |
|---|---|---|
| optional.dfy | Optional | `Option` |
| strings.dfy | Strings | `trim`, ASCII `toLowerCase`, `includes`, character removal and run replacement |
| numerals.dfy | Numerals | `Number.prototype.toString(radix)` and the global `parseInt` |
| seqs.dfy | Seqs | the query shapes: `eq` filters, `order(..., descending)`, `limit`, `.single()` |
| schema.dfy | Schema | the table rows (lib/supabase/database.types.ts) and the store, class `Database` |
| json.dfy | JsonValues | JSON request values and `String(v)` |
| guests.dfy | GuestActions | app/actions/guests.ts |
| guest_form.dfy | GuestForm | components/admin/guests/GuestForm.tsx |
| guest_table.dfy | GuestTable | components/admin/guests/GuestTable.tsx |
| rsvp_route.dfy | RsvpRoute | app/api/rsvp/route.ts |
| rsvp_admin.dfy | RsvpAdmin | app/actions/rsvp-admin.ts |
| wishes_route.dfy | WishesRoute | app/api/wishes/route.ts |
| wishes_admin.dfy | WishesAdmin | app/actions/wishes-admin.ts |
| content.dfy | Content | app/actions/content.ts |
| admin.dfy | Admin | app/actions/admin.ts |
| countdown.dfy | Countdown | components/invitation/CountdownSection.tsx |
| main_content.dfy | MainContent | components/invitation/MainContent.tsx |

How the model is built:

- **The store.** It is `Schema.Database`, a class with one `seq` field per
  table and a `nextId` counter for the ids the store generates.
  - `Valid()` holds the table invariants:
    - every id is below `nextId`;
    - ids are distinct within each table;
    - no two rsvp rows point to the same guest, since `guest_id` is one-to-one
      in lib/supabase/database.types.ts:108-116.
- **Server actions and route handlers.**
  - Each one that writes is a method taking the `Database`. It modifies only
    the fields it writes.
  - Each is tied to a pure function of the old tables (a `...Effect`
    function, or `SaveRsvp`, `SetApproval`, `SetMessage`, `Filter`).
  - Lemmas about those functions state what the source promises: the
    upsert's one row per guest, the singleton content row, idempotence, and
    that an unknown id changes nothing.
- **Reads** are functions. Supabase's query builder becomes sequence
  operations:
  - `eq` becomes `Filter`;
  - ordering on a timestamp, newest first, becomes `SortDesc`, with results
    that are sorted and a permutation;
  - `limit(n)` becomes `Take`;
  - `.single()` becomes `Single`, which is the one matching row when exactly
    one matches, and no data otherwise.
- **Parameters.**
  - A read or write whose error the code checks is a parameter:
    `readError`/`failed` for reads, and `writeError` for writes, holding the
    error message. Reads whose error the code discards are listed under
    "Left out".
  - The clock is a parameter `now` (and `nowMs` for `Date.now()`).
- **Client components.**
  - React state becomes classes whose fields are the `useState` values:
    `GuestFormState`, `GuestTableState` and `CountdownState`.
  - Each handler and effect is a method.

Where the code and the project's documented intent disagree, the model follows the code:

- A guest count typed as a negative number is stored negative. Only NaN and
  0 become 1 (`CoerceGuestsNegativeText`).
- The string `"true"` for `attending` is stored as not attending; only
  `"yes"` and the boolean `true` count (`AttendingExamples`).
- `updateWeddingInfo` treats a failed read of the existing row like an empty
  table and inserts a second row, so "at most one row" holds only when the
  read succeeds (`ReadFailureAddsRow`).
- The guest table reads `guest.group` and `guest.rsvp`, but the guests page
  (app/admin/(dashboard)/guests/page.tsx:13,51) passes the rows of
  `getGuests`, read with `select("*")` (app/actions/guests.ts:12). Those
  rows carry `group_name` and no `rsvp`, so in the app every group cell
  shows "-" and every status reads "No Response". The model gives the table
  guests in the shape its props declare, with the group taken from
  `group_name`.
- `deleteGuest` touches only the guests table; what happens to the rsvp
  rows is up to the store's foreign key.

## Model

| member | source | states |
|---|---|---|
| GuestActions.GetGuests | app/actions/guests.ts:7-27 | newest guest first (sorted on created_at); with a non-empty search a permutation of the guests whose name contains it ignoring case (each matching row once), otherwise a permutation of all guests; an empty list when the query fails |
| GuestActions.StripEdgeHyphens | app/actions/guests.ts:51 | on text without double hyphens the result neither starts nor ends with '-', keeps no double hyphen, and only holds characters of the input |
| GuestActions.SlugBaseShape | app/actions/guests.ts:48-51 | the slug text before the timestamp uses only a-z, 0-9 and '-', has no two hyphens in a row, and does not start or end with '-' |
| GuestActions.AfterLastHyphen | app/actions/guests.ts:52-53 | the last hyphen-separated segment of a slug holds no hyphen |
| GuestActions.GenerateSlugTimestamp | app/actions/guests.ts:52-53 | a generated slug ends in '-' and the base-36 digits of the timestamp, and decoding that segment gives the timestamp back |
| GuestActions.ChooseSlug | app/actions/guests.ts:84 | the stored slug is the trimmed slug input when that is not blank, otherwise generateSlug(name) |
| GuestActions.CreateGuestEffect | app/actions/guests.ts:57-100 | success iff the name is present and not blank, the case-insensitive lookup of the trimmed name does not find exactly one guest, and the insert succeeds; success appends exactly the new row (trimmed name, chosen slug, empty email/phone/group as null); every failure leaves the table unchanged; a blank name gives the name-required error, exactly one guest with the name the duplicate-name error, and a failed insert the store's own error message |
| GuestActions.CreateTwiceIsDuplicate | app/actions/guests.ts:71-92 | creating a guest and then one whose trimmed name equals it ignoring case: the first succeeds and the second fails with the duplicate-name error |
| GuestActions.NameTakenAfterInsert | app/actions/guests.ts:71-81 | after a row with a fresh name is inserted the ilike lookup of that name, in any case, finds exactly that row |
| GuestActions.GetGuestById | app/actions/guests.ts:29-44 | a failed read gives null; a returned guest is in the table with that id; when the read succeeds, null means no guest has that id |
| GuestActions.IdLookup | app/actions/guests.ts:29-44 | with distinct ids, a lookup by id that finds nothing means no guest has that id |
| GuestActions.UpdatedGuest | app/actions/guests.ts:111-117 | the rewritten row keeps id, created_at and invitation_sent, takes the name verbatim and the new updated_at, stores empty email/phone/group as null, and changes the slug only when a non-blank slug is given (then trimmed) |
| GuestActions.UpdateGuestEffect | app/actions/guests.ts:102-135 | only rows with that id change, ids stay in place, the table length is kept; no name check; a write error leaves the table and returns the message |
| GuestActions.UpdateGuestIdempotent | app/actions/guests.ts:111-127 | sending the same update twice gives the same table as sending it once |
| GuestActions.DeleteGuestEffect | app/actions/guests.ts:137-147 | success keeps exactly the rows whose id differs, each once and in table order (the table filtered on the id, a subsequence of it); a write error changes nothing and returns its message |
| GuestActions.DeleteUnknownGuest | app/actions/guests.ts:140 | deleting an id no guest has leaves the table as it was |
| GuestActions.CreateGuest | app/actions/guests.ts:57-100 | the store after createGuest is CreateGuestEffect of the old guests, with the next id; other tables unchanged; the store invariant is kept |
| GuestActions.InsertGuest | app/actions/guests.ts:86-92 | the insert appends one row with the store's next id and the given columns, and advances the id counter |
| GuestActions.UpdateGuest | app/actions/guests.ts:102-135 | the store after updateGuest is UpdateGuestEffect of the old guests; other tables and the id counter unchanged; the invariant is kept |
| GuestActions.DeleteGuest | app/actions/guests.ts:137-147 | the store after deleteGuest is DeleteGuestEffect of the old guests; other tables unchanged; the invariant is kept |
| GuestForm.FormSlugShape | components/admin/guests/GuestForm.tsx:29-34 | the client slug uses only [a-z0-9_-], holds no whitespace and no upper case, and has no two hyphens in a row |
| GuestForm.FormSlugIdempotent | components/admin/guests/GuestForm.tsx:29-34 | applying the transform to its own output returns that output |
| GuestForm.FormSlugFixed | components/admin/guests/GuestForm.tsx:29-34 | every string of [a-z0-9_-] without double hyphens is left unchanged by the transform |
| GuestForm.GuestFormState.constructor | components/admin/guests/GuestForm.tsx:21-23 | a new guest starts with empty name and slug and auto-slug on; an edited guest starts from its stored name and slug with auto-slug off |
| GuestForm.GuestFormState.RunEffect | components/admin/guests/GuestForm.tsx:27-37 | the slug becomes the transform of the name exactly when auto-slug is on and the name is not empty; otherwise it is kept |
| GuestForm.GuestFormState.OnNameChange | components/admin/guests/GuestForm.tsx:69 | the name is taken as typed; with auto-slug on and a non-empty name the slug follows it, otherwise the slug is unchanged |
| GuestForm.GuestFormState.OnSlugChange | components/admin/guests/GuestForm.tsx:84-87 | the slug is taken as typed and auto-slug turns off, so the effect no longer rewrites it |
| GuestTable.GetRsvpStatus | components/admin/guests/GuestTable.tsx:56-69 | no response iff the rsvp list is null or empty; otherwise only the first entry decides: attending with its guest count, else declined |
| GuestTable.StatusLabelInjective | components/admin/guests/GuestTable.tsx:58-68 | two statuses with the same label are the same status, so the cell tells the three statuses and the counts apart |
| GuestTable.InvitationLink | components/admin/guests/GuestTable.tsx:39 | the link is as long as origin, path and slug together |
| GuestTable.InvitationLinkParts | components/admin/guests/GuestTable.tsx:39 | the link is the origin, then "/invitation?guest=", then the slug verbatim |
| GuestTable.GroupCell | components/admin/guests/GuestTable.tsx:128 | the group cell is the group when it is non-empty, else "-" |
| GuestTable.Body | components/admin/guests/GuestTable.tsx:101-142 | the body is the placeholder row iff the list is empty, else one row per guest in order, showing that guest's id, name, slug, group cell, contact cell and status label |
| GuestTable.ContactCell | components/admin/guests/GuestTable.tsx:131-140 | the email line when the email is non-empty, then the phone line when the phone is non-empty, and "-" alone when neither is |
| GuestTable.GuestTableState.constructor | components/admin/guests/GuestTable.tsx:25-26 | nothing is marked copied or being deleted |
| GuestTable.GuestTableState.CopyButtonLabel | components/admin/guests/GuestTable.tsx:150-157 | a guest's copy button reads "Copied" exactly when that guest is the one just copied |
| GuestTable.GuestTableState.CopyInvitationLink | components/admin/guests/GuestTable.tsx:28-43 | the clipboard gets the invitation link and the guest is marked copied |
| GuestTable.GuestTableState.CopyTimerFired | components/admin/guests/GuestTable.tsx:42 | the timer clears the copied mark |
| GuestTable.GuestTableState.HandleDelete | components/admin/guests/GuestTable.tsx:45-54 | without confirmation nothing changes; with it the guests table becomes DeleteGuestEffect's, a non-empty error is alerted as "Error: " plus the message, no error or an empty one raises no alert, and the deleting mark ends cleared |
| RsvpRoute.CoerceGuests | app/api/rsvp/route.ts:75 | the stored count is never 0: parseInt's value when that is a non-zero number, 1 for NaN and 1 when parseInt reads 0 ("0", "00", "-0") |
| RsvpRoute.CoerceGuestsNumber | app/api/rsvp/route.ts:75 | a JSON number that is a safe integer (magnitude below 2^53) is stored as it is unless it is 0, which becomes 1 |
| RsvpRoute.CoerceGuestsNegativeText | app/api/rsvp/route.ts:75 | the text "-2" is stored as -2 |
| RsvpRoute.CoerceGuestsNonNumbers | app/api/rsvp/route.ts:75 | null, undefined, true and false all give 1 |
| RsvpRoute.ParseIntLetter | app/api/rsvp/route.ts:75 | text starting with a letter, lower- or upper-case, parses to NaN |
| RsvpRoute.AttendingExamples | app/api/rsvp/route.ts:74 | "yes" and true are attending; "true", "no" and false are not |
| RsvpRoute.ResolveGuest | app/api/rsvp/route.ts:12-41 | a found guest is in the table; a non-empty slug that one guest has decides; otherwise a non-empty name matched trimmed and ignoring case decides |
| RsvpRoute.SlugTakesPrecedence | app/api/rsvp/route.ts:16-26 | a guest with the given slug is the one found, whatever name comes with it |
| RsvpRoute.NameFallback | app/api/rsvp/route.ts:30-41 | with no slug, or one no guest has, the one guest whose name equals the trimmed name ignoring case is found |
| RsvpRoute.OverwriteById | app/api/rsvp/route.ts:82-87 | the rows with that id take the new answer, count, message and updated time and keep id and guest; every other row is unchanged |
| RsvpRoute.ExistingRow | app/api/rsvp/route.ts:66-70 | in a well-kept table the lookup of the guest's rsvp finds the row that points to the guest |
| RsvpRoute.NoRowForGuest | app/api/rsvp/route.ts:66-70 | when the lookup finds no row, no row points to the guest |
| RsvpRoute.SaveRsvpOneRowPerGuest | app/api/rsvp/route.ts:66-93 | after the check-then-update-or-insert the guest has exactly one rsvp row, holding the answer, count, message and time; rows of other guests are kept and none is added; the table invariants hold |
| RsvpRoute.OverwriteKeepsTable | app/api/rsvp/route.ts:82-87 | the update by id keeps the table invariants |
| RsvpRoute.OverwriteSaved | app/api/rsvp/route.ts:82-87 | updating the guest's existing row by its id leaves the guest exactly one row with the answer, and other guests' rows unchanged |
| RsvpRoute.SaveInserts | app/api/rsvp/route.ts:88-92 | a guest without a row gets exactly one new row with the answer and a fresh id; other rows are kept |
| RsvpRoute.ResubmitOverwrites | app/api/rsvp/route.ts:66-93 | a second answer from the same guest overwrites the row of the first: same length, same ids, the guest's row holds the second answer |
| RsvpRoute.SubmitRsvpEffect | app/api/rsvp/route.ts:10-110 | a body that is not JSON gives 500; no guest found gives 404 and leaves the table; a write error gives 500 "Failed to save RSVP." and leaves the table; 200 iff a guest is found and the write succeeds, answering the guest's stored name, with the coerced answer saved for that guest |
| RsvpRoute.LookupGuest | app/api/rsvp/route.ts:12-41 | the slug-then-name lookup finds ResolveGuest's guest |
| RsvpRoute.WriteRsvp | app/api/rsvp/route.ts:66-93 | the rsvp table becomes SaveRsvp's; the invariant is kept |
| RsvpRoute.SubmitRsvp | app/api/rsvp/route.ts:10-110 | the response and the new rsvp table are SubmitRsvpEffect's; the other tables are unchanged; the invariant is kept |
| RsvpAdmin.ContactOf | app/actions/rsvp-admin.ts:11 | an embedded guest is the one the row's guest_id points to; with distinct guest ids, a guest_id some guest carries always finds its guest |
| RsvpAdmin.Joined | app/actions/rsvp-admin.ts:9-12 | one joined row per rsvp row, in order, each with its guest's name, email and phone |
| RsvpAdmin.GetRsvps | app/actions/rsvp-admin.ts:6-28 | newest updated first; a permutation of the joined rows the filter lets through (each once); all rows (a permutation) for no filter; nothing when the query fails |
| RsvpAdmin.FilteredByAttendance | app/actions/rsvp-admin.ts:14-18 | "attending" returns only attending rows, "declined" only declining rows |
| RsvpAdmin.RsvpGuestIds | app/actions/rsvp-admin.ts:37 | the set holds exactly the guest_ids of the rsvp rows |
| RsvpAdmin.PendingGuests | app/actions/rsvp-admin.ts:30-41 | the guest list filtered by "no rsvp row points to this id", a subsequence of the guest list in its order; a guest is in it exactly when no row points to it; all guests when there is no rsvp data; nothing when there is no guest data |
| RsvpAdmin.SameUnanswered | app/actions/rsvp-admin.ts:37-38 | testing membership in the set of rsvp guest ids keeps the same guests as checking that no rsvp row points to the guest |
| Seqs.FilterSubsequence | app/actions/rsvp-admin.ts:38 | a filtered list only leaves rows out and keeps the others in their order |
| RsvpAdmin.DoubleQuotes | app/actions/rsvp-admin.ts:80 | doubling the quotes never shortens the text |
| RsvpAdmin.QuoteCell | app/actions/rsvp-admin.ts:80 | a written cell starts and ends with a double quote |
| RsvpAdmin.ParseQuotedRoundTrip | app/actions/rsvp-admin.ts:80 | a cell with its quotes doubled and then closed reads back as the cell, up to what follows the closing quote |
| RsvpAdmin.UnquoteCell | app/actions/rsvp-admin.ts:80 | dropping the outer quotes of a written cell and halving the doubled quotes gives the cell back |
| RsvpAdmin.ParseRecordRoundTrip | app/actions/rsvp-admin.ts:79-81 | a record of quoted cells joined by commas, followed by the end or a line feed and more, reads back as its cells |
| RsvpAdmin.ParseDocumentRoundTrip | app/actions/rsvp-admin.ts:78-82 | records joined by line feeds read back as the records and their cells |
| RsvpAdmin.GuestCountCell | app/actions/rsvp-admin.ts:72 | a null or 0 guest count is written "1" |
| RsvpAdmin.GuestCountCellReadsBack | app/actions/rsvp-admin.ts:72 | parseInt reads the count cell back as the stored count, or as 1 for a null or 0 count |
| RsvpAdmin.OrEmpty | app/actions/rsvp-admin.ts:68-74 | a null column is written as empty text, any other as itself |
| RsvpAdmin.RowCells | app/actions/rsvp-admin.ts:67-76 | eight cells in header order: the joined guest's name, email and phone (empty for a missing value or a missing guest), "Yes" iff the row attends else "No", the guest count cell, dietary restrictions and message (empty when null), and the locale date of updated_at |
| RsvpAdmin.CsvRows | app/actions/rsvp-admin.ts:55-78 | the header record, then one record per row in query order |
| RsvpAdmin.EightCells | app/actions/rsvp-admin.ts:55-76 | every record of the export, the header included, has eight cells |
| RsvpAdmin.ExportCsv | app/actions/rsvp-admin.ts:43-85 | a read error is returned as its message; otherwise the CSV text reads back as the header and the rows of getRSVPs in order |
| RsvpAdmin.DeleteRsvp | app/actions/rsvp-admin.ts:87-98 | success removes exactly the rows with that id and keeps the rest in order; an error is returned and changes nothing; other tables unchanged |
| WishesRoute.PublicWishes | app/api/wishes/route.ts:9-13 | a permutation of the wishes approved as true (never false or null), each once, newest first |
| WishesRoute.GetWishes | app/api/wishes/route.ts:5-31 | a failed query gives 500 "Failed to fetch wishes"; otherwise 200 with a permutation of the approved wishes, newest first |
| WishesRoute.TrimField | app/api/wishes/route.ts:41 | text is trimmed, undefined and null are absent, anything else throws |
| WishesRoute.NewWish | app/api/wishes/route.ts:50-54 | the inserted row has the trimmed name and message and is approved |
| WishesRoute.PostWishEffect | app/api/wishes/route.ts:34-74 | 201 iff both fields are non-blank strings and the insert succeeds, answering the new row, which is appended; a missing, null or blank name gives 400 whatever the message; after a good name, a missing, null or blank message gives 400; a rejected request inserts nothing; a name or, after a good name, a message that is neither text nor missing gives 500 "Internal server error"; a storage error gives 500 "Failed to submit wish"; a bad body gives 500 "Internal server error" |
| WishesRoute.PostedWishIsListed | app/api/wishes/route.ts:48-66 | a wish POST accepts appears in the next GET, with non-blank name and message |
| WishesRoute.PostWish | app/api/wishes/route.ts:34-74 | the response and the new wishes table are PostWishEffect's; the invariant is kept |
| WishesRoute.InsertWish | app/api/wishes/route.ts:48-56 | the insert appends one approved row with the next id, and advances the id counter |
| WishesAdmin.GetWishes | app/actions/wishes-admin.ts:6-28 | newest first; a permutation of the rows the filter lets through: "pending" only is_approved false, "approved" only true, no filter all rows; nothing when the query fails |
| WishesAdmin.NullApprovalHidden | app/actions/wishes-admin.ts:14-18 | a wish whose approval is null is in neither filtered list |
| WishesAdmin.SetApproval | app/actions/wishes-admin.ts:33-36 | the rows with that id take the flag and change in no other column; every other row is unchanged |
| WishesAdmin.SetApprovalIdempotent | app/actions/wishes-admin.ts:33-36 | approving (or unapproving) twice is doing it once |
| WishesAdmin.LastDecisionWins | app/actions/wishes-admin.ts:30-60 | approving and then unapproving, or the reverse, leaves the last decision |
| WishesAdmin.ApprovalDecidesPublic | app/actions/wishes-admin.ts:30-60 | after approval the wish is on the public feed; after unapproval it is not |
| WishesAdmin.SetMessage | app/actions/wishes-admin.ts:78-81 | the rows with that id take the message verbatim; every other row is unchanged |
| WishesAdmin.EditKeepsApproval | app/actions/wishes-admin.ts:78-81 | a message edit keeps the wish's name, approval and created_at |
| WishesAdmin.UnknownWish | app/actions/wishes-admin.ts:35 | approval, message edit and delete with an id no wish has change nothing |
| WishesAdmin.ApproveWish | app/actions/wishes-admin.ts:30-44 | the wishes table becomes SetApproval(true); an error is returned and changes nothing |
| WishesAdmin.UnapproveWish | app/actions/wishes-admin.ts:46-60 | the wishes table becomes SetApproval(false); an error is returned and changes nothing |
| WishesAdmin.DeleteWish | app/actions/wishes-admin.ts:62-73 | success removes exactly the wishes with that id; an error is returned and changes nothing |
| WishesAdmin.UpdateWishMessage | app/actions/wishes-admin.ts:75-89 | the wishes table becomes SetMessage's; an error is returned and changes nothing |
| Content.GetWeddingInfo | app/actions/content.ts:6-21 | the first row; nothing when the table is empty or the read fails |
| Content.ReplaceContent | app/actions/content.ts:52-57 | the row with that id takes all thirteen fields and the new updated_at, keeping id and created_at; nothing is merged; other rows unchanged |
| Content.UpdateWeddingInfoEffect | app/actions/content.ts:23-68 | with an existing row the save rewrites it by id and keeps the row count; with none it inserts exactly one row; a write error is returned and changes nothing |
| Content.SaveKeepsSingleton | app/actions/content.ts:52-61 | from zero or one row a successful save leaves exactly one row, which the next read returns with the saved content |
| Content.ReadFailureAddsRow | app/actions/content.ts:27-31 | when the read of the existing row fails, a save over one row leaves two rows |
| Content.UpdateWeddingInfo | app/actions/content.ts:23-68 | the content table and outcome are UpdateWeddingInfoEffect's; the invariant is kept |
| Admin.CountOr0 | app/actions/admin.ts:14-16 | the row count, 0 when the read failed |
| Admin.GetDashboardStats | app/actions/admin.ts:5-30 | the totals are the row counts (0 for a failed read); attending counts the attending rows and declined the others, and together they are the rsvp total |
| Admin.AttendingCountsRows | app/actions/admin.ts:18-21 | one more rsvp row adds one to the attending count when it attends and one to the declined count otherwise |
| Admin.GetRecentActivity | app/actions/admin.ts:32-52 | at most five rsvps newest updated first and at most five wishes newest first, each a prefix of the fully sorted list; every wish left out is no newer than those listed; a failed read gives an empty list |
| Countdown.SplitDuration | components/invitation/CountdownSection.tsx:33-36 | hours in 0..23, minutes and seconds in 0..59, and days·86400 + hours·3600 + minutes·60 + seconds is the whole seconds of the difference |
| Countdown.Recompose | components/invitation/CountdownSection.tsx:33-36 | the four figures as the component computes them recompose the whole seconds |
| Countdown.CountdownState.constructor | components/invitation/CountdownSection.tsx:20-25 | the countdown starts at all zeros |
| Countdown.CountdownState.Tick | components/invitation/CountdownSection.tsx:28-39 | a target in the future shows the split of the difference; a past target keeps the previous figures |
| Countdown.FormatNumber | components/invitation/CountdownSection.tsx:47 | at least two characters, the number's text unchanged when it already has two, else one '0' in front; a non-negative figure reads back as itself |
| Countdown.FormatTwoDigits | components/invitation/CountdownSection.tsx:47 | a figure below 100 is exactly two characters |
| Countdown.TotalCells | components/invitation/CountdownSection.tsx:70 | the grid length is a multiple of 7, at least first + days and below first + days + 7 |
| Countdown.CalendarDays | components/invitation/CountdownSection.tsx:71-74 | cells before the first weekday and after the last day are empty, and cell first + d - 1 holds d |
| Countdown.CalendarHoldsEveryDay | components/invitation/CountdownSection.tsx:71-74 | the grid holds exactly daysInMonth days, in increasing order |
| Countdown.HighlightedOnce | components/invitation/CountdownSection.tsx:280-300 | a wedding day inside the month is highlighted in exactly one cell, the one holding it; any other day in none |
| Countdown.MonthName | components/invitation/CountdownSection.tsx:77-94 | the English name of the zero-based month |
| MainContent.ShownInfo | components/invitation/MainContent.tsx:23 | the loaded content, or the defaults when there is none |
| MainContent.TargetDate | components/invitation/MainContent.tsx:24-26 | always holds 'T'; a date holding 'T' is used as it is; otherwise the date, 'T' and the time, or "16:00:00" when the time is null or empty |
| MainContent.TargetSplitsAtFirstT | components/invitation/MainContent.tsx:24-26 | a composed target splits at its first 'T' into the stored date and the time used |
| MainContent.DefaultTarget | components/invitation/WeddingContext.tsx:71-85 | with no content loaded the target is the default date followed by "T16:00:00" |
| Numerals.ToRadix | app/actions/guests.ts:53 | the digits are lower-case digits of the radix, and there is at least one |
| Numerals.FromToRadix | app/actions/guests.ts:53 | reading back the digits toString(radix) writes gives the number |
| Numerals.ParseIntOfIntToString | components/invitation/CountdownSection.tsx:47 | parseInt reads back every integer that IntToString writes; IntToString is toString for safe integers, which covers the countdown's values |
| Numerals.ParseUnsignedDecimal | app/api/rsvp/route.ts:75 | parseInt of a run of decimal digits is the number they denote |
| Strings.TrimStart | app/actions/guests.ts:67 | the result is a suffix of the text, everything dropped is whitespace, and it does not start with whitespace |
| Strings.TrimEnd | app/actions/guests.ts:67 | the result is a prefix of the text, everything dropped is whitespace, and it does not end with whitespace |
| Strings.Trim | app/actions/guests.ts:67 | the trimmed text neither starts nor ends with whitespace and holds only characters of the input |
| Strings.TrimIsMiddle | app/actions/guests.ts:67 | the trimmed text is one slice of the input, starting where trimStart's result starts, with only whitespace before and after it |
| Strings.BlankIffAllSpace | app/actions/guests.ts:66 | text is blank after trimming iff every character is whitespace |
| Strings.TrimIdempotent | app/api/rsvp/route.ts:34 | trimming twice is trimming once |
| Strings.LowerOfLower | components/admin/guests/GuestForm.tsx:30 | lower-casing twice is lower-casing once |
| Schema.OrNull | app/api/rsvp/route.ts:76 | `x \|\| null`: the text when it is present and non-empty, null otherwise |
| Schema.GuestAppended | app/actions/guests.ts:86-92 | a guest row with the next id can be appended without breaking the table invariants |
| Schema.WishAppended | app/api/wishes/route.ts:48-56 | a wish row with the next id can be appended without breaking the table invariants |
| Schema.InfoAppended | app/actions/content.ts:58-61 | a content row with the next id can be appended without breaking the table invariants |

## Left out

- The hosted database client is not modelled: the network, `createClient`,
  `revalidatePath`, `redirect` and logging. The tables are the fields of
  `Schema.Database`, and a failed call whose error the code checks is a
  parameter.
- The error of the existing-row check in app/api/rsvp/route.ts:66-70 is
  ignored, so a failed read takes the insert path. When no row exists that
  is the path a good read takes too; when one exists, the insert breaks the
  one-row-per-guest rule and fails, which is the `writeError` case. The
  failed read is therefore not a separate parameter.
- The duplicate lookup of `createGuest` (app/actions/guests.ts:71-76)
  discards its error: a failed read leaves `existing` null and the name is
  inserted even when it is taken. `CreateGuestEffect` has no parameter for
  this read and always refuses a name exactly one guest has.
- The two guest lookups of the rsvp route discard their errors. A failed
  slug lookup (app/api/rsvp/route.ts:17-25) falls through to the name
  lookup, and a failed name lookup (app/api/rsvp/route.ts:31-40) answers
  404. `ResolveGuest` has no parameter for these reads: it models the
  lookups succeeding.
- Concurrency is not modelled. Everything runs sequentially: the races in
  the rsvp upsert, the duplicate-name check and the content singleton, and
  `Promise.all` in app/actions/admin.ts:8.
- Store-generated ids are not modelled as uuids: they are numbers from a
  counter (`nextId`). Store defaults other than ids and timestamps (such as
  `invitation_sent`) are not modelled. Timestamps are never null, so the
  store's ordering of null timestamps is not modelled.
- `.single()` with more than one matching row: `Seqs.Single` gives no data
  then, as `.single()` and `.maybeSingle()` return null data on more than
  one row. The duplicate-name check of `CreateGuestEffect` and the guest
  lookup of the rsvp route rely on that.
- `ilike` wildcards `%` and `_` typed by users are not modelled: the name
  match is case-insensitive equality and the search is a case-insensitive
  substring.
- Case mapping is ASCII only (`Strings.Lower`); Unicode case mapping of
  Vietnamese names is not modelled.
- The Date library is not modelled: `Date.now`, `new Date(...)` parsing,
  `getDay`/`getDate`/`getMonth` and `toLocaleDateString`.
  - The clock is the `now`/`nowMs` parameter.
  - The weekday of the first of the month, the month length and the
    difference in milliseconds are inputs.
  - The locale date of the CSV export is the `localeDate` parameter.
  - That the default date leaves the target unparsable is not modelled.
- Floating point is not modelled: the countdown works on integer
  milliseconds, and JSON numbers in requests are integers. Fractions in a
  guest count are not modelled.
- `JsonValues.JsString`: a number is written as its exact decimal digits,
  which is JavaScript's `String()` only for safe integers (magnitude below
  2^53). JSON.parse rounds larger integers, and `String()` writes 10^21 and
  above in exponent form ("1e+21", which parseInt reads as 1). The read-back
  ensures therefore holds only for safe integers, and the model's text for
  larger numbers is not JavaScript's.
- `RsvpRoute.CoerceGuestsNumber`: holds only for safe integers, for the
  reason above; a guest count of 10^21 or more, which the route would store
  as 1 (or less), is not modelled.
- The effects' timers themselves are not modelled: `setInterval` of the
  countdown and the two-second `setTimeout` of the copy mark. Only the
  callbacks are modelled, as `Tick` and `CopyTimerFired`.
- `GuestTableState.HandleDelete`: the intermediate `deletingId` state while
  the delete is awaited, and the confirm and alert dialogs, are not
  modelled. The confirmation is a parameter and the alert text is returned.
- Form submission and the guest form's loading state in
  components/admin/guests/GuestForm.tsx:39-51 are not modelled.
- `RsvpRoute.RsvpRequest`: name, message and slug are strings or absent. A
  JSON number or object in those fields (which would throw on `.trim()`, or
  be passed to the store) is not modelled.
- `Content.UpdateWeddingInfo`: the thirteen form fields come in already
  read. A required field missing from the form, which the store would
  refuse, shows up only as a write error.
- `Admin.GetRecentActivity`: the joined guest carries name, email and phone,
  although the query selects only the name; only the name is ever read.
- `GuestActions.DeleteGuest`: what the rsvp table's foreign key does to the
  deleted guest's rows is not visible, so the rsvp table is left unchanged.
- `WishesRoute.GetWishes`: the `catch` around `createClient` (500 "Internal
  server error") is not modelled; only a failed query is.
- Presentational and animation components, client fetching and polling
  (WishesSection, RSVPSection, the WeddingContext fetch), ContentForm,
  WishCardAdmin, RSVPTable, ExportButton, authentication, the sitemap and
  scripts/generate-types.js are not part of this model. They hold no logic
  beyond the pieces above.
