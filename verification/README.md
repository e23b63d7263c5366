# G20 authorities and agenda — a Dafny model

This project models the logic of a small G20 summit web application. The
application keeps a directory of G20 countries, a register of national
authorities (head of state, finance minister, central bank president), and a
schedule of presentations given by those authorities. The model covers:

- **Authority registration.** The registration form's validator checks four
  things: the name contains a space; a country is given; the role is given and not
  already held for that country; the email's domain ends with the country's
  top-level domain. A submit appends the record only when the validator finds
  nothing (`Authorities`, `Session`).
- **Presentation booking.** The booking form's validator checks three things:
  an authority is chosen; the date is one of the two accepted dates; the time
  is given and, when the date and time parse, at least 15 minutes from every
  stored booking whose date and time parse; a time that does not parse never
  conflicts. The authority
  picker copies role and country from the first authority with the chosen
  name. A submit appends only a clean form (`AgendaForm`, `Session`).
- **The presentation list.** It is a copy of the bookings, sorted stably by
  instant (`Sorting`, `Agendas`).
- **The country sidebar.** It holds the region checkboxes, derived from the
  directory in first-appearance order, the region toggle, the lower-cased
  search, and the filter producing the list on screen (`Sidebar`).
- **The country page.** It shows the authorities registered for the selected
  country, plus the "N/A" fallbacks for the capital, language and TLD lines
  (`Countries`).

The JavaScript semantics the source relies on are modelled literally:

- `String.prototype.split` and `endsWith` (`Text`).
- `Array.prototype.filter` and `Array.from(new Set(...))` (`Seqs`), and `find` (`AgendaForm.FindByName`).
- ECMAScript 2019's stable `sort` (`Sorting`).
- `new Date("YYYY-MM-DDTHH:MM")`, read as a count of minutes on a proleptic
  Gregorian calendar. An unparsable date gives `None`, which plays the role of
  `NaN` (`Clock`).
- The falsiness of `""` and `undefined` behind every `||` fallback.

Application state is immutable. A submit is a function from the old state to
the new state and the error map. Two invariants are kept:

- every stored authority is well formed and no role is held twice for a
  country;
- every stored booking is named and on an accepted date, and no two bookings
  whose date and time parse are within 15 minutes of each other; a booking
  whose time does not parse never conflicts.

Two places behave differently from what the pages suggest, and the model follows the code:

- The registration validator only requires a non-empty country. Only the
  drop-down limits the choice to the G20 list, so the model does not check
  membership.
- The date validator accepts exactly `2025-11-01` and `2025-11-10`. The date
  picker allows the whole range between them, and the error message names
  other days (18 and 19 November).

## Model

| member | source | states |
|---|---|---|
| Text.Split | src/paginas/Authorities.js:15 | one piece more than there are separators, and no piece holds the separator |
| Text.JoinSplit | src/paginas/Authorities.js:15 | joining the pieces of a split with the separator gives back the text |
| Text.Lower | src/components/Sidebar.js:53 | same length, no upper-case letter left, each character lower-cased in place |
| Text.LowerIdempotent | src/components/Sidebar.js:53 | lower-casing twice is lower-casing once |
| Authorities.RoleHeld | src/paginas/Authorities.js:26-30 | true exactly when some registered authority has both the form's country and the form's role |
| Authorities.EmailDomain | src/paginas/Authorities.js:39 | absent exactly when the email has no `@`; otherwise the text after the first `@` up to the next `@` or the end |
| Authorities.EmailDomainOf | src/paginas/Authorities.js:39 | for `local@domain` and `local@domain@rest`, with no `@` in `local` or `domain`, the domain is `domain` |
| Authorities.NameCheck | src/paginas/Authorities.js:15 | `name.split(" ")` gives fewer than two pieces exactly when the name has no space |
| Authorities.DomainCheck | src/paginas/Authorities.js:38-40 | the `split`-based email check rejects exactly the addresses that have no `@`, or whose text between the first `@` and the next is empty or lacks the TLD |
| Authorities.NameProblem | src/paginas/Authorities.js:15-17 | a problem exactly when the name is empty or has no space, reported as an incomplete name |
| Authorities.RoleProblem | src/paginas/Authorities.js:23-33 | a problem exactly when the role is empty or already held for the country; "missing" for the first, "taken" for the second |
| Authorities.EmailProblem | src/paginas/Authorities.js:35-43 | a problem exactly when the email is empty or its domain mismatches the TLD; "missing" for the first, "wrong domain" for the second |
| Authorities.Validate | src/paginas/Authorities.js:13-46 | each of the four fields is flagged exactly when its own condition fails. Name: empty or without a space. Country: empty. Role: empty or already held for that country. Email: empty, or no `@`, or a domain that is empty or lacks the country's TLD (the text "undefined" when the country has none). The problem kind reported for each field is also fixed |
| Authorities.TrailingSpaceIsEnough | src/paginas/Authorities.js:15 | "Ana " passes the name check because one space makes two pieces; "Ana" fails it |
| Authorities.BrazilianDomains | src/paginas/Authorities.js:38-42 | with TLD ".br", an address at "test.br" is accepted and one at "test.com" is rejected |
| Authorities.SecondAtIsIgnored | src/paginas/Authorities.js:39-40 | an address "local@mail.br@anything" is accepted for ".br": only the part between the first two `@` is checked |
| AgendaForm.Clash | src/paginas/AgendaForm.js:39-41 | two bookings clash exactly when both instants exist and each is less than 15 minutes after the other |
| AgendaForm.ClashSymmetric | src/paginas/AgendaForm.js:40 | a booking clashes with another exactly when the other clashes with it |
| AgendaForm.HasConflict | src/paginas/AgendaForm.js:38-42 | true exactly when some stored booking's instant is less than 15 minutes from the candidate's; an unparsable instant never conflicts |
| AgendaForm.Validate | src/paginas/AgendaForm.js:18-51 | authority flagged exactly when empty; date flagged exactly when it is neither 2025-11-01 nor 2025-11-10 (empty reported as missing, anything else as not offered); time flagged exactly when empty or in conflict with some stored booking |
| AgendaForm.ConflictIgnoresHolder | src/paginas/AgendaForm.js:38-42 | the conflict check does not depend on the candidate's authority, country or role: one schedule is shared by everybody |
| AgendaForm.FindByName | src/paginas/AgendaForm.js:70-72 | the position of the first authority with the name; absent exactly when nobody has that name |
| AgendaForm.ChooseAuthority | src/paginas/AgendaForm.js:62-80 | the chosen name is stored; role and country come from the first authority with that name, or stay as they were when there is none; date and time are untouched |
| AgendaForm.AcceptedDatesNineDaysApart | src/paginas/AgendaForm.js:27-28 | both accepted dates parse, nine days apart |
| AgendaForm.ConflictThresholdIsStrict | src/paginas/AgendaForm.js:40-41 | with a booking at 10:00, 10:10 conflicts and 10:15 does not: exactly 15 minutes apart is allowed |
| Clock.ParseDigitsRoundTrip | src/paginas/AgendaForm.js:37 | reading back a zero-padded number gives the number |
| Clock.DayNumberConsecutive | src/paginas/AgendaForm.js:37 | the last day of a month and the first day of the next, including across a year end, are one day apart |
| Clock.TimeRoundTrip | src/paginas/AgendaForm.js:37 | every "HH:MM" a time input produces parses to 60 × HH + MM minutes |
| Clock.DateRoundTrip | src/paginas/AgendaForm.js:37 | every valid "YYYY-MM-DD" parses to its day number |
| Clock.ParseDate | src/paginas/AgendaForm.js:37 | a parsed date is a non-negative day number |
| Clock.ParseTime | src/paginas/AgendaForm.js:37 | a parsed time is a minute of the day, from 0 to 1439 |
| Clock.DigitsOfParsed | src/paginas/AgendaForm.js:37 | a run of digits is the zero-padded printing of its value |
| Clock.ParseDateOnlyPrinted | src/paginas/AgendaForm.js:37 | a text that parses as a date is the "YYYY-MM-DD" printing of an existing day of years 0 to 9999, and parses to that day's number |
| Clock.ParseTimeOnlyPrinted | src/paginas/AgendaForm.js:37 | a text that parses as a time is the "HH:MM" printing of an hour below 24 and a minute below 60, and parses to 60 × HH + MM |
| Clock.Instant | src/paginas/AgendaForm.js:37 | an instant exists exactly when both the date and the time parse |
| Clock.InstantInjective | src/paginas/AgendaForm.js:39-40 | equal instants come from equal dates and equal times |
| Clock.SameDateDistance | src/paginas/AgendaForm.js:40 | on one date, instants differ by the difference of the times in minutes |
| Sorting.InsertSorted | src/paginas/Agendas.js:7-11 | inserting into a sequence sorted by key keeps it sorted |
| Sorting.InsertStable | src/paginas/Agendas.js:7-11 | the inserted element comes after every element with its key |
| Sorting.InsertionSortCorrect | src/paginas/Agendas.js:7-11 | the sort's result is sorted by key and is a permutation of its input; elements with equal keys keep their input order |
| Agendas.ListAgendas | src/paginas/Agendas.js:7-11 | the listing is a permutation of the bookings in non-decreasing instant order; at every instant the bookings appear in booking order |
| Seqs.Keep | src/components/Sidebar.js:59 | the kept elements are exactly the elements passing the test |
| Seqs.KeepCount | src/components/Sidebar.js:59 | a passing value is kept as often as it occurs, a failing one never |
| Seqs.Distinct | src/components/Sidebar.js:38-40 | no repeats, and the same elements as the input |
| Seqs.DistinctFirstOccurrenceOrder | src/components/Sidebar.js:38-40 | the distinct elements come in the order of their first occurrence |
| Sidebar.RegionsOf | src/components/Sidebar.js:39 | one region per country, position by position |
| Sidebar.Regions | src/components/Sidebar.js:38-40 | every region of the directory exactly once, in order of first appearance |
| Sidebar.ToggleRegion | src/components/Sidebar.js:42-46 | a selected region is removed (all copies), and every other region keeps its order and its number of copies; an unselected one is appended |
| Sidebar.ToggleTwice | src/components/Sidebar.js:42-46 | toggling one region twice restores the selected set, and restores the selection itself when the region was unselected |
| Sidebar.Filter | src/components/Sidebar.js:58-68 | the list shown keeps the directory's order. A country is shown exactly when its lower-cased name contains the query and it is in a selected region, or no region is selected. Each shown country appears as often as in the directory |
| Sidebar.FilterNothing | src/components/Sidebar.js:58-68 | an empty query with no region selected shows the whole directory |
| Sidebar.UpperCaseQueryMatchesNothing | src/components/Sidebar.js:60 | a query holding an upper-case letter matches no country, because names are lower-cased first |
| Sidebar.SearchChange | src/components/Sidebar.js:52-56 | the stored query is the lower-cased text and the list shown agrees with it |
| Sidebar.SearchIgnoresCase | src/components/Sidebar.js:53 | texts differing only in case give the same sidebar |
| Sidebar.RegionChange | src/components/Sidebar.js:42-50 | the selection is toggled and the list shown agrees with the stored query and the new selection |
| Sidebar.LoadedAsWritten | src/components/Sidebar.js:28-30 | as written, the load stores the directory and shows all of it, while the stored query and selection stay as they were |
| Sidebar.LoadedAsWrittenIgnoresQuery | src/components/Sidebar.js:28-30 | as written, the load leaves the list out of step with the search whenever a fetched country fails the current query or selection |
| Sidebar.BrTypedWhileLoading | src/components/Sidebar.js:28-30 | as written, loading [Argentina] after "br" was typed shows Argentina, which the query excludes |
| Sidebar.Loaded | src/components/Sidebar.js:28-30 | after the load the list shown agrees with the current query and selection |
| Sidebar.LoadedIntoInitial | src/components/Sidebar.js:24-30 | when nothing has been typed or selected, the corrected load and the load as written show the same list |
| Countries.CountryAuthorities | src/paginas/Countries.js:115-126 | absent exactly when no country is selected; otherwise, in registration order, exactly the authorities of that country, each as often as registered |
| Countries.FirstOrNotAvailable | src/paginas/Countries.js:138 | never blank: the first entry when the list exists and its first entry is non-empty, otherwise "N/A" |
| Countries.CapitalShown | src/paginas/Countries.js:138 | the capital line is never blank |
| Countries.TldShown | src/paginas/Countries.js:148 | the TLD line is never blank |
| Countries.LanguageShown | src/paginas/Countries.js:145 | "N/A" only when the languages object is missing; its first language otherwise, or nothing when it is empty |
| Session.SubmitAuthority | src/paginas/Authorities.js:71-83 | the errors are the validator's; the authority is appended exactly when there are none; the bookings never change |
| Session.SubmitAgenda | src/paginas/AgendaForm.js:53-60 | the errors are the validator's; the booking is appended exactly when there are none; the authorities never change |
| Session.SubmitAuthorityKeepsValid | src/paginas/Authorities.js:71-83 | registration keeps every stored authority well formed and never lets a country hold one role twice |
| Session.SubmitAgendaKeepsValid | src/paginas/AgendaForm.js:53-60 | booking keeps every stored booking named and on an accepted date, and keeps every two bookings whose date and time parse at least 15 minutes apart; a booking whose time does not parse never conflicts |
| Session.SubmitsKeepValid | src/paginas/AgendaForm.js:53-60 | both submits preserve the whole-state invariant |
| Session.RoleCannotBeTakenTwice | src/paginas/Authorities.js:25-33 | once a country has someone in a role, a later registration of that role for that country is refused as taken and changes nothing |
| Session.ListingDefined | src/paginas/Agendas.js:7-11 | in a valid state whose times all parse, every booking has an instant, so the listing is defined |

## Left out

- The country directory's fetch and its local-storage cache (`fetchAndCacheCountries`, `getCachedCountries`), and `getCountryByName`. They are network and browser I/O. The directory arrives as the `fetched` parameter of `Sidebar.Loaded`.
- Rendering, routing, navigation after a submit, and styling. The error messages are reduced to a `Problem` kind per field.
- CountryList.js and Loading.js, which only render.
- `Date` parsing beyond "YYYY-MM-DD" + "HH:MM" local time. Time zones, daylight-saving gaps, seconds, "24:00" and engine-specific leniency for out-of-range days are not modelled. Every other text is `None`, standing for `NaN`.
- Text.Lower: lower-cases the ASCII letters A-Z only. `toLowerCase` also maps other Unicode letters.
- Agendas.ListAgendas: requires every booking to have a valid instant. With a `NaN` key the comparator's result is not consistent, and ECMAScript leaves the order implementation-defined.
- That validation does not modify the stored lists, and that the listing sorts a copy. Both hold by construction in a model without mutation.
- The G20-membership of the registration country. Only the drop-down enforces it; the validator does not check it.
- The date picker's range and the error message's dates (18 and 19 November), which disagree with the two dates the validator accepts. The model follows the validator.

## Findings

| source | as written | input that shows it | evidently intended | confidence | as-written member | corrected member |
|---|---|---|---|---|---|---|
| src/components/Sidebar.js:28-30 | when the directory arrives from the network, the list shown is set to the whole directory, discarding the query typed while it loaded (no region box is on screen before the directory arrives, so only the search box can be used) | type "br" before the directory ([Argentina]) arrives: Argentina is shown although the query excludes it | the list shown is the directory filtered by the current query and selection | not executed | Sidebar.BrTypedWhileLoading | Sidebar.Loaded |
