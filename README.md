# LibraNet catalog core in Dafny

This project models the core of LibraNet, a single-process library catalog. It
covers three kinds of item (books, audiobooks and serial e-magazines), each of
which can be borrowed and returned. A return that comes after the due date
pays an overdue fine. A `LibraNet` catalog owns the items, indexed by id, and
a ledger of accumulated fines. On top of that it offers borrow/return by id,
fine queries and search/listing views.

Layout (all modules are declared in these files and import only each other):

- `wrappers.dfy` — `Option`, `Result` and `Outcome`. They stand for Java's `null` returns and `LibraryException`.
- `dates.dfy` — the ISO 8601 calendar date in its complete extended form `YYYY-MM-DD` (section 4.1.2.2 of ISO 8601:2004).
  - It has a concrete strict parser and counts days as `LocalDate.toEpochDay` does.
  - It proves that comparing and adding day counts is calendar comparison and `plusDays`.
- `text.dfy` — ASCII `toLowerCase` and `String.contains`, with the characterisation of `contains` as "occurs at some index".
- `items.dfy` — the variant data (`Variant`, `Kind`) and the loan state `Loan`.
  - `Borrow` and `Return` are the pure transitions that specify the state machine, with the fine rule `OverdueFine`.
  - The class `LibraryItem` has one named constructor per subclass. Its methods `BorrowItem`, `ReturnItem` and `ArchiveIssue` update its fields in place.
- `catalog.dfy` — the fines ledger as a map value (`RecordFine`, `SumFines`), and the class `LibraNet`.
  - `LibraNet` holds two fields, `items: map<int, LibraryItem>` and `fines: map<int, int>`.
  - It has methods for the state changes and functions for the queries and views.
- `scenarios.dfy` — a verified client that runs sample loans (a late return, repeated borrows and returns, an archived issue on loan), the failure cases and the searches.
  - Its assertions follow from the contracts of `LibraNet` and `LibraryItem` and from the definitions of the value-level functions those contracts use (`Borrow`, `Return`, `RecordFine`, `ParseDate`, `Contains`).

Modelling choices:

- A date is an `int` day count since 1970-01-01. So `plusDays(14)` is `+ 14`, `isAfter` is `>` and `ChronoUnit.DAYS.between` is `-`.
- A fine is an `int`: overdue days times 10.
- The subclass of an item is the constant field `variant`. `searchByType(Class)` becomes `SearchByType(kind)` on the tag `KindOf(variant)`.
- Search results are sets of item objects, because `HashMap` iteration order is unspecified.

Returned items keep their due date:

- `returnItem` (libranet.java:58-66) sets `isAvailable` and never touches `dueDate`. A returned item therefore still reports the due date of its last loan, so "has a due date" does not mean "is borrowed".
- The model keeps that stale date (`Return`, `LibraryItem.ReturnItem`). The invariant it proves is the one the code keeps: a borrowed item always has a due date (`Loan.Valid`).

## Model

| member | source | states |
|---|---|---|
| `Dates.ParseDate` | libranet.java:45 | An accepted string has the `YYYY-MM-DD` shape and names a valid date; the result is that date's day count, which lies between those of 0000-01-01 and 9999-12-31. |
| `Dates.EpochDay` | libranet.java:62 | The day count of a valid date lies inside the block of counts its year covers (365 or 366 consecutive numbers starting at the count of January 1st). |
| `Dates.DayCountRange` | libranet.java:45 | Every date with a four-digit year has a day count from −719528 (0000-01-01) to 2932896 (9999-12-31). |
| `Dates.ParseFormat` | libranet.java:45 | Parsing the `YYYY-MM-DD` text of any real date with a four-digit year succeeds and yields that date's day count. |
| `Dates.FormatParse` | libranet.java:45 | A `YYYY-MM-DD`-shaped string whose fields name a real date (month 1–12, a day that month has under the Gregorian leap-year rule) is exactly that date's canonical text, so the parser accepts only canonical text. |
| `Dates.ParseInjective` | libranet.java:59 | Two accepted strings that give the same day count are the same string. |
| `Dates.EpochDayOrder` | libranet.java:62 | For valid dates, a smaller day count means an earlier calendar date (both directions), and equal counts mean the same date, so `>` on counts is `isAfter`. |
| `Dates.EpochDayMonotonic` | libranet.java:62 | A calendar-later date has a strictly larger day count. |
| `Dates.NextDayIsNextEpochDay` | libranet.java:46 | The calendar day after a date, with month and year roll-over, has day count one more. |
| `Dates.PlusDays` | libranet.java:46 | `plusDays(n)`, taken as `n` calendar steps, gives a valid date whose day count is the start's plus `n`. |
| `Dates.PlusDaysByDayCount` | libranet.java:46 | `plusDays(n)` is the unique valid date whose day count is `n` more, so the due date `borrow + 14` is a calendar date 14 days on. |
| `Dates.YearsOrdered` | libranet.java:62 | Every day of a year has a smaller day count than every day of any later year. |
| `Dates.MonthsOrdered` | libranet.java:62 | Within a year, every day of a month has a smaller count than every day of any later month. |
| `Text.ToLower` | libranet.java:216 | Lower-casing keeps the length, maps each character by the ASCII rule, and leaves no upper-case ASCII letter. |
| `Text.Contains` | libranet.java:216 | The empty needle is found in every text, and a needle is never found in a shorter text. |
| `Text.ContainsOccurs` | libranet.java:216 | `contains(hay, needle)` holds exactly when `needle` occurs in `hay` at some index. |
| `Text.ContainsIgnoringCaseOfContains` | libranet.java:216 | A title containing the query exactly also matches once both are lower-cased. |
| `Text.ContainsEmptyAndSelf` | libranet.java:222 | The empty query and a text's own value always match it, ignoring case. |
| `Items.Borrow` | libranet.java:39-51 | A successful borrow leaves a consistent loan (out, with a due date). The only failures are `NotAvailable` and `InvalidDate`. |
| `Items.Return` | libranet.java:53-70 | A successful return leaves a consistent loan that is in, and charges a non-negative multiple of 10. The only failures are `NotBorrowed` and `InvalidDate`. |
| `Items.OverdueFine` | libranet.java:62-66 | The fine is never negative and always a multiple of 10. It is 0 exactly when the return date is on or before the due date. |
| `Items.OverdueFineByDays` | libranet.java:62-66 | Returning `n` days after the due date costs `10 * n`, and nothing for `n <= 0`. |
| `Items.BorrowOutcomes` | libranet.java:39-51 | Borrow succeeds exactly on an available item with a parseable date; the item is then out and due at the parsed day + 14. A borrowed item fails with `NotAvailable` whatever the date text, and an available item with a bad date fails with `InvalidDate`. |
| `Items.ReturnOutcomes` | libranet.java:53-70 | Return succeeds exactly on a borrowed item with a parseable date; the item is then available with its due date unchanged. An available item fails with `NotBorrowed` whatever the date text, and a bad date fails with `InvalidDate`. |
| `Items.BorrowThenReturn` | libranet.java:39-70 | Borrowing on day `b` and returning on day `t` makes the item available with due date `b + 14`. The fine is 0 when `t <= b + 14` and `10 * (t - b - 14)` otherwise. |
| `Items.NoDoubleTransition` | libranet.java:40-56 | After a successful borrow, a second borrow fails with `NotAvailable`; after a successful return, a second return fails with `NotBorrowed`. |
| `Items.LibraryItem.Book` | libranet.java:104-107 | A new book has the given id, title, author and page count, is available, has no due date and is not archived. |
| `Items.LibraryItem.Audiobook` | libranet.java:123-126 | A new audiobook has the given id, title, author and duration, is available, has no due date and is not archived. |
| `Items.LibraryItem.EMagazine` | libranet.java:149-153 | A new e-magazine has the given id, title, author and issue number, is available, has no due date and is not archived. |
| `Items.LibraryItem.CheckAvailability` | libranet.java:72-74 | True exactly when a borrow would not be refused as `NotAvailable`; on a consistent item, true exactly when a return would be refused as `NotBorrowed`. |
| `Items.LibraryItem.BorrowItem` | libranet.java:39-51 | The outcome and the new `isAvailable`/`dueDate` are those of `Borrow` on the old state. On any failure both fields are unchanged. |
| `Items.LibraryItem.ReturnItem` | libranet.java:53-70 | The outcome, the fine and the new `isAvailable` are those of `Return` on the old state. On any failure the state is unchanged, and `dueDate` is never written. |
| `Items.LibraryItem.ArchiveIssue` | libranet.java:155-158 | On an e-magazine, the archived flag becomes true and nothing else changes. Repeating it changes nothing. |
| `Catalog.FinesFor` | libranet.java:238 | On a valid ledger the amount is a non-negative multiple of 10, and it is positive exactly for ids that have an entry. |
| `Catalog.SumFines` | libranet.java:234 | The empty ledger sums to 0, and a ledger of non-negative entries has a non-negative total. |
| `Catalog.RecordFine` | libranet.java:208-210 | The ledger entry for the id grows by the fine when the fine is positive. Every other id's entry, and whether it is present, is unchanged, and no id other than this one is added. |
| `Catalog.RecordFineTotal` | libranet.java:207-211 | Recording a non-negative fine raises the ledger total by exactly that fine. |
| `Catalog.RecordFineValid` | libranet.java:207-211 | Recording a non-negative multiple of 10 keeps every ledger entry a positive multiple of 10. |
| `Catalog.SumFinesWithout` | libranet.java:233-235 | The ledger total equals any one entry plus the total of the rest, so it does not depend on the order of summation. |
| `Catalog.SumFinesBounds` | libranet.java:233-239 | On a valid ledger the total is a non-negative multiple of 10 and bounds every per-id amount. |
| `Catalog.LibraNet.constructor` | libranet.java:180-183 | A new catalog has no items and no fines. |
| `Catalog.LibraNet.AddItem` | libranet.java:185-187 | The item is stored under its own id, replacing any earlier item with that id; every other id and the ledger are unchanged, and `GetItem(id)` returns it. |
| `Catalog.LibraNet.GetItem` | libranet.java:189-191 | Absent exactly for ids not in the catalog; a found item is one of the catalog's items, carries the requested id and is valid. |
| `Catalog.LibraNet.BorrowItem` | libranet.java:193-199 | Fails with `ItemNotFound(id)` on an unknown id. Otherwise the item's state and the outcome are those of `Borrow`, and its archived flag is unchanged. The items map, the ledger and every other item are unchanged. |
| `Catalog.LibraNet.ReturnItem` | libranet.java:201-212 | Fails with `ItemNotFound(id)` on an unknown id and changes nothing. Otherwise the item's state and the outcome are those of `Return`, its archived flag is unchanged, and on success the ledger becomes `RecordFine(old ledger, id, fine)`. The total grows by exactly the fine returned, and other items are unchanged. |
| `Catalog.LibraNet.ChargeFine` | libranet.java:207-210 | The ledger becomes `RecordFine(old ledger, id, fine)`, the total grows by the fine, and the catalog invariant is kept. |
| `Catalog.LibraNet.TotalFines` | libranet.java:233-235 | 0 with no fines; otherwise the sum of the ledger entries is a non-negative multiple of 10. |
| `Catalog.LibraNet.GetFinesForItem` | libranet.java:237-239 | The ledger entry for an id that has one, and 0 for an id that has none; a non-negative multiple of 10 no larger than the total. |
| `Catalog.LibraNet.SearchByTitle` | libranet.java:214-218 | Exactly the catalog items whose lower-cased title contains the lower-cased query. |
| `Catalog.LibraNet.SearchByAuthor` | libranet.java:220-224 | Exactly the catalog items whose lower-cased author contains the lower-cased query. |
| `Catalog.LibraNet.SearchByType` | libranet.java:226-231 | Exactly the catalog items whose variant is of the requested kind. |
| `Catalog.LibraNet.GetAvailableItems` | libranet.java:241-245 | Exactly the catalog items whose `checkAvailability` is true. |
| `Catalog.LibraNet.GetBorrowedItems` | libranet.java:247-251 | Exactly the catalog items whose `checkAvailability` is false. |
| `Catalog.AvailableBorrowedPartition` | libranet.java:241-251 | Available and borrowed items are disjoint and together are the whole catalog; every borrowed item has a due date. |
| `Catalog.KindPartition` | libranet.java:226-231 | Books, audiobooks and e-magazines are pairwise disjoint and together are the whole catalog. |
| `Catalog.SearchEmptyAndSelf` | libranet.java:214-224 | The empty query lists every item. Every item is found by its own title and by its own author. |
| `Catalog.SearchFindsExactSubstring` | libranet.java:214-218 | Any item whose title contains the query exactly is in the title search result, whatever the case. |
| `Scenarios.ScenarioDates` | libranet.java:45 | `2024-01-01`, `2024-01-15`, `2024-01-20` and `2024-01-21` parse to the day counts 19723, 19737, 19742 and 19743. |
| `Scenarios.SampleTitleMatches` | libranet.java:216 | The query `gatsby` matches the title `The Great Gatsby` ignoring case, and does not match `Dune`. |

## Left out

- `LibraNetSystem` (libranet.java:261-530) is not modelled. It is the interactive console menu: `Scanner` input, prompts, printing and the static catalog it holds.
- Printing is left out: `Audiobook.play`, the notice printed by `archiveIssue`, `displayAllItems` and every `toString`. `ArchiveIssue` keeps only the state change, and `play` changes no state.
- Floating point is left out. Fines are integers (whole overdue days times 10) instead of `double`s, so `getTotalFines` has no rounding. `Audiobook.duration` is carried as a `real` and never computed with.
- `LocalDate.parse` is modelled only for four-digit years 0000–9999.
  - Signed and extended years (`+10000-01-01`, `-0001-01-01`) are rejected by the model; Java accepts them.
  - Dates past 9999-12-31 are not modelled, so `PlusDays` stops at that day.
- `toLowerCase` is modelled on ASCII letters only. Unicode case mapping and locale rules are not modelled.
- Search results are sets. The `List` order that `HashMap` iteration gives is unspecified and is not modelled.
- `searchByType(Class<T>)` uses reflection. It is replaced by matching on the `Kind` tag of the item's variant.
- Ids, page counts and issue numbers are unbounded integers. Java's 32-bit `int` wrap-around plays no part in the core.
- Catalog.LibraNet.AddItem: requires the item's object invariant (`LibraryItem.Valid`). Every item built by the constructors and changed only through its methods meets it.
- Items.LibraryItem.ArchiveIssue: requires an e-magazine. In Java the method exists only on `EMagazine`, so callers cannot reach it otherwise.
- Getters (`getId`, `getTitle`, `getAuthor`, `getDueDate`, `getPageCount`, `getDuration`, `getIssueNumber`, `isArchived`) are not separate members. They are the fields `id`, `title`, `author`, `dueDate`, `variant` and `isArchived`, read directly.
- Sharing one item object between two catalogs is not modelled. A stored item can still be changed directly, as `archiveIssue` is in the source. The catalog's methods promise only what they do to the item they touch: its loan state as `Borrow`/`Return` give it, and its archived flag unchanged.
