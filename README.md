# Q-Line booking core in Dafny

Q-Line is a Django application for booking appointments at service branches
(clinics, salons, consultancies, hospitals). Staff register an organization
and give it time-slot templates such as `"09:00 AM - 01:00 PM"`, plus holidays.
Customers pick a branch and a date. The branch page cuts every template into
slots of the organization's appointment duration and marks a slot taken when
any appointment row holds the slot's key. A booking passes a fixed chain of
guards before one `Booked` row is inserted. Staff serve, skip or delete
appointments, and customers cancel theirs.

This project models that core and proves its properties:

- `Text`: Python's `strip`, `split`, ASCII case folding and code-point order.
- `Clock`: the `%I:%M %p` parser and formatter, and the slot key built from them.
- `Schedule`: the `while current + d <= end` slot loop.
- The records: `StaffModels` and `BookingsModels`.
- `Database`: a `Store` class holding the four tables and one id counter, with its invariants.
- `Ordering`: `order_by`, as a sorted permutation.
- `Tables`: generic filter, count and map lemmas.
- The views: `UsersViews`, `StaffViews` and `BookingsViews`, plus the forms in `StaffForms`.

Modelling choices:

- **Values.**
  - Times of day are minutes since midnight.
  - Dates are day numbers.
  - The clock (`now`, `today`) and the signed-in user or staff id are parameters.
  - A date that the `YYYY-MM-DD` parser rejects is a `None` beside the date text.
- **Tables.** Each table is a sequence kept in id order.
  - Unordered `.all()` and `.first()` follow that order.
  - Ids come from one counter shared by all tables.
- **Views.**
  - A view that writes is a method on the `Store`, with `modifies`.
  - A view that only reads is a function, with lemmas about it.

Behaviours of the code a reader might not expect:

- **The taken check ignores status.** Any row with the key blocks the slot, a `Cancelled` one included. So cancelling does not free a slot (`UsersViews.CancelThenRebookRefused`).
- **Guard order.** A booking is refused for a taken slot before the two-booking cap is checked.
- **Status changes.** Serving, skipping and cancelling set the status whatever it was before.
- **Switched-off branch.** A switched-off organization is simply not found.
- **Inactive templates on the branch page.** They are listed like active ones. Only `book_slot` shows them as disabled.
- **Templates the registration form accepts need not parse.** The form accepts `"09:00AM - 10:00AM"`, which the slot parser does not read (`StaffFormsExamples.AcceptedRangeNeedNotParse`).

## Model

| member | source | states |
|---|---|---|
| Clock.FormatClock | qline/users/views.py:132 | `%I:%M %p` writes 8 characters: two hour digits, a colon, two minute digits, a space and AM or PM |
| Clock.HourToken | qline/users/views.py:121 | the `%I` field accepts one or two digits and reads an hour from 1 to 12 |
| Clock.MinuteToken | qline/users/views.py:121 | the `%M` field accepts one or two digits and reads a minute below 60 |
| Clock.To24 | qline/users/views.py:121 | the 12-hour hour and AM/PM give a 24-hour hour, which is before noon exactly for AM |
| Clock.ParseClock | qline/users/views.py:121 | every time of day `strptime` reads lies in 0..1439 |
| Clock.ParseClockGrammar | qline/users/views.py:121-122 | the parser accepts exactly the grammar hour ':' minute whitespace+ meridiem (any case), and reads the value that the grammar assigns |
| Clock.ShapeParses | qline/users/views.py:121-122 | a string of the grammar's shape parses to its value |
| Clock.ClockRoundTrip | qline/users/views.py:121-132 | parsing a written time of day gives back the same minute |
| Clock.FormatClockInjective | qline/users/views.py:132 | distinct times of day are written differently |
| Clock.SlotKey | qline/users/views.py:132 | the slot key is 19 characters: the written start, " – " and the written end |
| Clock.SlotKeyInjective | qline/users/views.py:132-133 | equal slot keys mean equal bounds, so looking bookings up by key is looking them up by slot |
| Clock.ParseTemplate | qline/users/views.py:120-122 | a template reads as two times of day when it has exactly one '-' and both stripped halves parse |
| Clock.TemplateHalves | qline/users/views.py:120-122 | a template with one hyphen is read half by half, each half stripped |
| Clock.TemplateRoundTrip | qline/users/views.py:120-122 | a template written as `%I:%M %p - %I:%M %p` reads back as its two times |
| ClockExamples.CompactMeridiemDoesNotParse | qline/users/views.py:120-122 | `"09:00AM - 10:00AM"` does not read, because `strptime` needs whitespace before the meridiem |
| ClockExamples.MissingMeridiemDoesNotParse | qline/users/views.py:120-122 | `"9:00-8:00PM"` does not read |
| ClockExamples.SingleDigitHourParses | qline/users/views.py:120-122 | `"9:00 AM - 10:00 AM"` reads as 540 to 600 |
| ClockExamples.MidnightEndParses | qline/users/views.py:120-130 | an end of 12:00 AM reads as minute 0, before any start |
| Schedule.SlotsLength | qline/users/views.py:129-139 | the loop emits (end - start) div d slots, and none for a reversed or empty range |
| Schedule.SlotAt | qline/users/views.py:129-139 | slot k runs from start + k·d to start + (k+1)·d |
| Schedule.SlotsCover | qline/users/views.py:130 | every slot lies within the range; what is left after the last one is shorter than d, so no partial slot is emitted and no whole one is missed |
| Schedule.EmptyRange | qline/users/views.py:130 | a range whose end is not after its start yields no slot |
| Schedule.SlotsConsecutive | qline/users/views.py:139 | each slot starts where the previous one ends |
| Schedule.SlotsIncreasing | qline/users/views.py:129-139 | later slots start later |
| UsersViews.Entry | qline/users/views.py:132-138 | a listed slot carries its key and is available iff no row of any status holds that key for the organization and date |
| UsersViews.EntriesFollowSlots | qline/users/views.py:129-139 | the listed entries are the loop's slots, one for one and in order, each inside the template's range |
| UsersViews.EntriesCount | qline/users/views.py:129-139 | as many entries are listed as whole slots fit |
| UsersViews.EntryAt | qline/users/views.py:130-138 | entry k has the key of the slot starting k durations after the start, and its availability |
| UsersViews.EntriesDistinct | qline/users/views.py:132 | no key is listed twice for one template |
| UsersViews.ExpandTemplate | qline/users/views.py:129-139 | the while loop produces exactly the specified entry list |
| UsersViews.SlotPass | qline/users/views.py:131-139 | one pass appends the entry of the slot at `current` and advances by d |
| UsersViews.TemplateGroup | qline/users/views.py:119-144 | a template contributes a group titled with its text iff its text reads |
| UsersViews.GroupsOfReadable | qline/users/views.py:116-144 | exactly the readable templates give groups, in order; a bad template is skipped and later ones still count |
| UsersViews.GroupsConcat | qline/users/views.py:116-144 | the groups of consecutive template lists concatenate |
| UsersViews.OrgTemplates | qline/users/views.py:95 | only the organization's own templates are listed |
| UsersViews.DaySlots | qline/users/views.py:104-144 | the page is a holiday iff a readable date has a holiday row, and a holiday lists no groups |
| UsersViews.ListDay | qline/users/views.py:104-144 | the listing code computes the specified day view |
| UsersViews.ListGroups | qline/users/views.py:116-144 | the template loop computes the groups of all the organization's templates |
| UsersViews.DayPass | qline/users/views.py:117-144 | one pass appends the template's group, or nothing (`continue`) when it does not read |
| UsersViews.Admission | qline/users/views.py:148-196 | the booking guards in order: missing field, not ten digits, unreadable date, holiday, slot held by any row, two `Booked` rows at the branch; each outcome holds exactly when the guards before it pass and its own fails, and admission iff all pass, with the stripped name and phone |
| UsersViews.CancelledRowStillBlocks | qline/users/views.py:182 | a `Cancelled` row still blocks its slot key |
| UsersViews.CancelThenRebookRefused | qline/users/views.py:182 | after cancelling, the same booking request is refused as slot taken |
| UsersViews.HolidayBeforeSlot | qline/users/views.py:178-191 | a holiday is reported even when the slot is also taken |
| UsersViews.SlotBeforeCap | qline/users/views.py:182-196 | a taken slot is reported even to a user at the cap |
| UsersViews.BookedRow | qline/users/views.py:199-207 | the inserted row is `Booked` and holds the submitted name, phone, date and slot, the user and the branch |
| UsersViews.AdmittedRowKeepsInvariants | qline/users/views.py:182-207 | inserting an admitted row keeps one row per slot key, every user within the cap, and the phone within its column |
| UsersViews.ActiveOrg | qline/users/views.py:94 | the lookup finds the organization with that id only while it is active |
| UsersViews.RefusalAnswer | qline/users/views.py:153-196 | a holiday or full cap redirects back; the other refusals render the page again with the listing |
| UsersViews.Submit | qline/users/views.py:147-207 | a submission applies the guards to the old tables and inserts exactly one row under the next id iff admitted; nothing else changes |
| UsersViews.InsertAppointment | qline/users/views.py:199-207 | the row goes at the end of the table and the store's invariants hold |
| UsersViews.BranchDetails | qline/users/views.py:92-221 | not found for a missing or switched-off branch; otherwise the day view, and on a submission the guard verdict's answer; exactly when admitted, the table grows by the `Booked` row with the stripped name and phone, the chosen slot and date, the user and branch, under the next id, and the id counter advances; otherwise no table or counter changes |
| UsersViews.ListingGroup | qline/users/views.py:246-272 | an inactive template gives one disabled, unavailable entry; an active one, its slots |
| UsersViews.ListingFails | qline/users/views.py:244-272 | `book_slot` raises iff some active template does not read; otherwise it lists one group per template |
| UsersViews.ListingAgreesWithBranch | qline/users/views.py:244-272 | when every template is active, `book_slot` lists the branch page's groups |
| UsersViews.ListTemplates | qline/users/views.py:244-272 | the loop computes the specified listing or the error |
| UsersViews.ListingPass | qline/users/views.py:245-272 | one pass appends the template's group or ends with the error |
| UsersViews.ListingFailsOnward | qline/users/views.py:253-255 | once a template has raised, later templates do not matter |
| UsersViews.BookSlot | qline/users/views.py:226-288 | not found, the form, an error, the holiday redirect, or the listing plus the session's booking info; no table is written |
| UsersViews.UserPasswordCheck | qline/users/views.py:29-39 | a customer password is accepted iff it has at least 4 characters, a letter and a digit, and equals the confirmation; each refusal holds exactly when its check is the first to fail, in that order |
| BookingsViews.Branches | qline/bookings/views.py:14-19 | no branches unless both fields are given; then exactly the active organizations matching both, ignoring case |
| BookingsViews.BranchesInIdOrder | qline/bookings/views.py:15-19 | the matching branches keep the table's order |
| BookingsViews.BranchSearchIgnoresCase | qline/bookings/views.py:16-17 | the case of the query does not change the result |
| BookingsViews.ActiveAndPastPartition | qline/bookings/views.py:31-56 | both lists are sorted; each of the user's rows is on exactly one of them, as often as in the table; the active list has only `Booked` rows, the history none |
| BookingsViews.ActiveWithinCap | qline/bookings/views.py:31-34 | under the booking cap, no branch appears more than twice on the active list |
| BookingsViews.OwnRow | qline/bookings/views.py:43 | the lookup finds a row with that id and that user, or there is none |
| BookingsViews.OwnRowUpdate | qline/bookings/views.py:43-46 | with unique ids, saving the found row changes exactly the row with that id |
| BookingsViews.Cancel | qline/bookings/views.py:42-48 | not found iff the user has no such row; a POST sets `Cancelled` whatever the status was; a GET changes nothing |
| BookingsViews.CancelMovesRow | qline/bookings/views.py:44-46 | a cancelled row leaves the active list and its cancelled form joins the history; every other row stays where it was |
| Ordering.Query | qline/bookings/views.py:31-34 | `.filter(p).order_by(o)` gives exactly the rows satisfying p, each as often as in the table, sorted by o |
| Ordering.TextOrderIsNotTimeOrder | qline/bookings/views.py:34 | ordering by the slot text puts 01:00 PM before 09:00 AM |
| StaffViews.StaffOrg | qline/staff/views.py:195 | `.first()` finds the first organization of the staff member, or there is none |
| StaffViews.AfterStatus | qline/staff/views.py:165-168 | a status change keeps the table's length |
| StaffViews.AfterStatusIsSetStatus | qline/staff/views.py:166-167 | with unique ids, the change reaches exactly the row with that id |
| StaffViews.LastStatusWins | qline/staff/views.py:165-177 | a second status change overrides the first, so changes apply from any prior status |
| StaffViews.AfterStatusSets | qline/staff/views.py:166-167 | the first row with that id gets the new status |
| StaffViews.AfterStatusKeepsInvariants | qline/staff/views.py:165-177 | serving or skipping keeps one row per slot key, every user within the cap, and ids in order |
| StaffViews.RedirectOrg | qline/staff/views.py:170 | there is a branch to redirect to iff the appointment exists |
| StaffViews.ChangeStatus | qline/staff/views.py:165-177 | the tables after a status change are as specified; only appointments change |
| StaffViews.Serve | qline/staff/views.py:165-170 | serving sets `Completed` on the row with that id, from any status; no other table and not the id counter changes |
| StaffViews.Skip | qline/staff/views.py:172-177 | skipping sets `Missed` on the row with that id, from any status; no other table and not the id counter changes |
| StaffViews.TemplateIndex | qline/staff/views.py:315 | the lookup finds this organization's template with that id, or there is none |
| StaffViews.InsertTemplate | qline/staff/views.py:309 | one new active template at the end, under the next id |
| StaffViews.AddTemplate | qline/staff/views.py:306-310 | a non-empty range adds exactly one template; an empty one adds nothing |
| StaffViews.EditTemplate | qline/staff/views.py:312-318 | only the chosen template's text changes; another organization's id is not found |
| StaffViews.DeleteTemplate | qline/staff/views.py:320-324 | only the chosen template of this organization is removed, and the others keep their order |
| StaffViews.DeleteTemplateRemovesOne | qline/staff/views.py:323 | with unique ids the deleted template no longer appears, and it plus the remaining rows are exactly the rows before |
| StaffViews.AddHoliday | qline/staff/views.py:327-330 | exactly one holiday row is added; an unreadable date adds nothing |
| StaffViews.AddedHoliday | qline/staff/views.py:329 | the added day becomes a holiday of the organization and no other day changes |
| StaffViews.KeptHolidays | qline/staff/views.py:334 | deletion keeps exactly the rows that are not this organization's row with that id |
| StaffViews.DeleteHoliday | qline/staff/views.py:332-335 | only the holiday rows with that id belonging to this organization go |
| StaffViews.DeletedHolidayOtherOrgs | qline/staff/views.py:334 | no other organization's holiday changes |
| StaffViews.Toggled | qline/staff/views.py:337-343 | the switch negates `is_active`; `disabled_since` is set iff the service is now off; nothing else changes |
| StaffViews.ToggleTwice | qline/staff/views.py:337-343 | switching twice restores `is_active`, and an active service exactly |
| StaffViews.ToggleService | qline/staff/views.py:337-343 | only the organization's row changes, to its toggled form |
| StaffViews.SwitchedOffIsNotFound | qline/staff/views.py:337-343 | a switched-off organization is no longer found by the customer's pages |
| StaffViews.KeptTexts | qline/staff/views.py:207-209 | the kept texts are the stripped non-blank submitted texts, in order, each non-empty and stripped |
| StaffViews.Fresh | qline/staff/views.py:207-209 | new active templates for the kept texts, under consecutive ids |
| StaffViews.EditService | qline/staff/views.py:189-212 | the first organization of the staff member takes the submitted fields; its templates are replaced by the kept texts; no organization, no change |
| StaffViews.CreateKept | qline/staff/views.py:206-209 | the creation loop appends exactly the kept texts' templates |
| StaffViews.CreateOne | qline/staff/views.py:208-209 | one pass creates a template only for a non-blank text |
| StaffViews.ReplacedTemplates | qline/staff/views.py:206-209 | after the edit, the organization's templates are exactly the kept texts, and another organization's are unchanged |
| StaffViews.ReplacedBy | qline/staff/views.py:206-209 | deleting one organization's templates and adding new ones of it leaves the other organizations' templates alone |
| StaffViews.StaffPasswordCheck | qline/staff/views.py:60-66 | a staff password is accepted iff it has at least 8 characters, a letter and a digit, and equals the confirmation |
| StaffViews.StaffRuleIsStricter | qline/staff/views.py:60-66 | every staff password accepted is also a valid customer password |
| StaffViews.InsertOrg | qline/staff/views.py:81-90 | the organization goes at the end under the next id |
| StaffViews.CreateAll | qline/staff/views.py:92-93 | one active template per cleaned range, in order |
| StaffViews.RegisterService | qline/staff/views.py:60-93 | a refused password creates nothing; missing first-step data creates no organization and no template (the staff account is already saved by then); otherwise one new active organization and its templates |
| StaffViews.AppointmentListContents | qline/staff/views.py:251-263 | the list holds exactly the organization's `Booked` rows passing the date filter and the case-insensitive name search, sorted by date then slot text |
| StaffViews.DeleteAppointment | qline/staff/views.py:245-249 | exactly the organization's rows with that id are removed |
| StaffViews.HistoryContents | qline/staff/views.py:281-287 | the history holds exactly the organization's non-`Booked` rows matching the search, latest save first |
| StaffViews.ListsPartitionOrg | qline/staff/views.py:251-287 | without search or filter, each of the organization's rows is on exactly one of the two staff lists |
| StaffViews.Dashboard | qline/staff/views.py:130-163 | shown iff the organization belongs to the staff member; today's list is that day's rows of any status, by slot text, and its count is its length |
| StaffViews.ServingCounts | qline/staff/views.py:147-149 | serving a row that was not completed raises the completed count by one |
| StaffViews.HandlingLeavesUpcoming | qline/staff/views.py:143-145 | serving or skipping a later `Booked` row lowers the upcoming count by one |
| StaffForms.CharField | qline/staff/forms.py:6-11 | a text field is accepted iff its stripped value is non-empty, within the maximum length and free of NUL characters; it is then returned stripped |
| StaffForms.FormRangeNoNul | qline/staff/forms.py:30-34 | no text of the range grammar holds a NUL character, so the field's NUL check never refuses a matching range |
| StaffForms.CleanTimeRange | qline/staff/forms.py:30-34 | a range is accepted iff its stripped form matches the form's grammar, and it is returned stripped |
| StaffForms.CleanTimeRangeIdempotent | qline/staff/forms.py:30-34 | cleaning a cleaned range returns it unchanged |
| StaffForms.FormRangeLength | qline/staff/forms.py:32 | a matching range is 17 to 20 characters long |
| StaffForms.FormRangeStripped | qline/staff/forms.py:31-32 | in a stripped match, the text after the hyphen and its space is a form time |
| StaffForms.CleanPhoneNumber | qline/staff/forms.py:14-18 | a phone number is accepted iff it is exactly ten ASCII digits after the field's strip |
| StaffForms.DurationBoundsSlots | qline/staff/forms.py:12 | a permitted duration is positive, so the slot loop advances, and a day holds at most 287 slots |
| StaffForms.CleanOrganizationForm | qline/staff/forms.py:5-24 | the form is valid iff every field cleans (the free-text fields stripped, non-empty, within their lengths and NUL-free), the service type is one of the choices and the duration is within 5..180; the cleaned name, location, address, phone and working hours are the stripped inputs, and the service type and duration are kept |
| StaffForms.FormTimeInModel | qline/staff/forms.py:32 | a form time with capital meridiem is a time to the model validator |
| StaffForms.FormRangeInModel | qline/staff/models.py:10-13 | with capital AM/PM, every range the form accepts is accepted by the model's validator |
| StaffFormsExamples.SingleDigitHourRejected | qline/staff/forms.py:32 | the form refuses `"9:00 AM - 10:00 AM"`, which the slot parser reads |
| StaffFormsExamples.MissingSpaceRejected | qline/staff/forms.py:32 | the form refuses `"9:00-8:00PM"` |
| StaffFormsExamples.AcceptedRangeNeedNotParse | qline/staff/forms.py:30-34 | the form accepts `"09:00AM - 10:00AM"`, which the slot parser does not read |
| StaffModels.NewOrganization | qline/staff/models.py:38-50 | a new organization is active with no disabling date, and holds the given fields |
| StaffModels.NewTimeSlot | qline/staff/models.py:56-59 | a new template is active |
| StaffModels.PhoneValidatorExact | qline/staff/models.py:5-8 | on text without a line break, the phone validator accepts exactly ten digits |
| StaffModels.DuplicateHolidayInert | qline/staff/models.py:65-67 | a second holiday row for the same day changes no day's status |
| BookingsModels.NewAppointment | qline/bookings/models.py:5-13 | a new row is `Booked`, saved at `now`, and holds the given fields |
| BookingsModels.WithStatus | qline/bookings/models.py:12-13 | a status save sets the status and refreshes `updated_at`, and the booking stays the same |
| BookingsModels.StatusTextFits | qline/bookings/models.py:12 | every status word fits its 20-character column, and distinct statuses are distinct words |
| BookingsModels.SlotKeyFits | qline/bookings/models.py:10 | every generated 19-character key fits the 20-character `time_slot` column |
| BookingsModels.WithStatusFits | qline/bookings/models.py:8-13 | a status change keeps a row within its column lengths |
| Database.SetStatus | qline/bookings/views.py:45-46 | a status save changes only the row with that id, to its new status and save time |
| Database.SetStatusKeepsTaken | qline/users/views.py:182 | a status change leaves every slot key exactly as taken as before |
| Database.SetStatusKeepsInvariants | qline/bookings/views.py:45-46 | a status change away from `Booked` keeps one row per key, the cap and the id order |
| Database.AppendKeepsInvariants | qline/users/views.py:182-207 | a booking that passed the slot and cap guards keeps those invariants |
| Database.FilterKeepsInvariants | qline/staff/views.py:247 | deleting rows keeps the invariants |
| Text.Strip | qline/users/views.py:148-149 | `strip()` removes a whitespace prefix and suffix and leaves neither at the ends |
| Text.StripIdempotent | qline/staff/forms.py:31 | stripping twice is stripping once |
| Text.Split | qline/users/views.py:120 | `split('-')` gives at least one piece |
| Text.SplitJoin | qline/users/views.py:120 | the pieces join back to the text |
| Text.SplitTwoParts | qline/users/views.py:120 | a text that splits into two is piece, separator, piece, and neither piece holds the separator |
| Text.Lower | qline/bookings/views.py:16-17 | case folding maps each character and keeps the length |
| Text.ContainsAt | qline/staff/views.py:263 | `icontains` finds the query at some position |

## Left out

- HTTP handling, template rendering, flash messages and redirect targets. Each view's answer is a small datatype instead.
- Session state (`org_data`, `slot_data`, `staff_id`) is left out. The staff id and the first-step data are parameters; `book_slot`'s `booking_info` is returned as a value.
- Password hashing, `authenticate`, `login` and `logout`: library calls outside this model.
- The e-mail regexes and the duplicate-e-mail checks of both registrations: only the password rules after them are modelled.
- The `Staff` table. A staff member is an id; `get_object_or_404(Staff, ...)` and the session check are not modelled.
- `StaffViews.RegisterService`: the `Staff` row that `service_register2` saves, and the `staff_id` it writes into the session, before it looks for the first-step data are not modelled. After the `NoOrgData` answer the source therefore already holds a new staff account, which the model does not show.
- `staff_serve` and `staff_skip` check no staff identity in the source either; the model follows that.
- Concurrency: the check-then-insert of a booking is sequential here; the source has no lock or transaction.
- `datetime.now()` and `date.today()` are parameters, and `updated_at` is the `now` passed in.
- Parsing `YYYY-MM-DD` dates: a date is a day number, or `None` when the text does not parse.
- `BranchDetails`: `strptime` raising on the POSTed date is modelled as `ServerError`.
- Unicode: `\d` is ASCII digits, `lower()` and `__iexact`/`__icontains` fold only ASCII letters, and whitespace is Python's `isspace` set.
- Database `max_length` limits are not enforced on insert, and neither are the `time_range_validator` and `phone_validator` model validators. The views create rows without running them, so they are predicates compared against the forms.
- Absent POST fields (`None` in Python) are modelled as empty text.
- Non-numeric ids, which make the source raise, are not modelled.
- `.all()` and `.first()` without `order_by` are assumed to return rows in id order.
- The notifications page, the login views, `staff_view_service`, the first step of `service_register` (beyond the forms it runs), the admin and the URL configuration.
- Text ordering assumes a binary collation: text columns sort by code point. The database settings are not part of this model, and another collation would order `time_slot` keys and names differently.
- `staff_slots` looks up the staff member's organization with `.first()` and redirects with "No organization found" when there is none. The template and holiday actions and `StaffViews.ToggleService` take the organization's id as a parameter: the caller passes the id of the row at the position `StaffViews.StaffOrg` finds. No dispatch method ties that lookup, or its redirect, to them.
- Ties in `order_by` may come back in any order. The model states sortedness and multiplicities, not one particular order.
- `UsersViews.BookSlot`, `UsersViews.ListDay` and `UsersViews.TemplateGroup`: they require a positive duration. The organization form guarantees it (5 to 180 minutes), and a zero duration would make the source's loop run forever.
- `StaffViews.RegisterService`: it requires the first-step duration to be within the form's bounds, as the first step's cleaning guarantees.
- `StaffViews.ChangeStatus`: it requires a status other than `Booked`. Only `Completed` and `Missed` reach it.
- `StaffViews.Dashboard`: its contract states today's list and its count. The upcoming, completed and missed counts are given by `CountLater` and `CountStatus`, and their behaviour under serving and skipping is stated by `ServingCounts` and `HandlingLeavesUpcoming`.
- `StaffViews.AfterStatusSets`: it states the new status of the first row with the id. That it is the only such row comes from unique ids (`AfterStatusIsSetStatus`).
