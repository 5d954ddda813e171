/**
 * A client of the catalog that runs sample loans: a late return, the failure
 * cases and a case-insensitive search. Every `assert` follows from the
 * contracts of `LibraNet` and `LibraryItem` together with the definitions of
 * the value-level functions those contracts are stated with (`Borrow`,
 * `Return`, `RecordFine`, `ParseDate`, `Contains`).
 */
module Scenarios {
  import opened Wrappers
  import opened Dates
  import opened Text
  import opened Items
  import opened Catalog

  /**
   * Sample dates, as `LocalDate.toEpochDay` numbers them: 2024-01-20 is 19 days
   * after 2024-01-01, so these two meet the requirements of `LateReturn`.
   */
  lemma ScenarioDates()
    ensures ParseDate("2024-01-01") == Some(19723)
    ensures ParseDate("2024-01-15") == Some(19737)
    ensures ParseDate("2024-01-20") == Some(19742)
    ensures ParseDate("2024-01-21") == Some(19743)
  {
    assert Fields("2024-01-01") == CalendarDate(2024, 1, 1);
    assert Fields("2024-01-15") == CalendarDate(2024, 1, 15);
    assert Fields("2024-01-20") == CalendarDate(2024, 1, 20);
    assert Fields("2024-01-21") == CalendarDate(2024, 1, 21);
  }

  /**
   * Borrow, then return 19 days later (for instance 2024-01-01 and 2024-01-20,
   * see `ScenarioDates`): due 14 days after the borrow, five days late, fine 50.
   */
  method LateReturn(borrowDate: string, returnDate: string)
    requires ParseDate(borrowDate).Some? && ParseDate(returnDate).Some?
    requires ParseDate(returnDate).value == ParseDate(borrowDate).value + 19
  {
    var catalog := new LibraNet();
    var book := new LibraryItem.Book(1, "The Great Gatsby", "F. Scott Fitzgerald", 180);
    catalog.AddItem(book);

    var borrowed := catalog.BorrowItem(1, borrowDate);
    assert borrowed == Pass && !book.isAvailable;
    assert book.dueDate == Some(ParseDate(borrowDate).value + 14);

    var returned := catalog.ReturnItem(1, returnDate);
    assert returned == Ok(50) && book.isAvailable;
    assert catalog.fines == map[1 := 50];
    assert catalog.TotalFines() == 50 && catalog.GetFinesForItem(1) == 50;
  }

  /**
   * A second borrow and a second return are refused whatever their date text,
   * and a return by the due date charges nothing.
   */
  method RepeatedTransitions(borrowDate: string, returnDate: string, other: string)
    requires ParseDate(borrowDate).Some? && ParseDate(returnDate).Some?
    requires ParseDate(returnDate).value <= ParseDate(borrowDate).value + 14
  {
    var catalog := new LibraNet();
    var book := new LibraryItem.Book(1, "The Great Gatsby", "F. Scott Fitzgerald", 180);
    catalog.AddItem(book);

    var borrowed := catalog.BorrowItem(1, borrowDate);
    var again := catalog.BorrowItem(1, other);
    assert borrowed == Pass && again == Fail(NotAvailable);

    var returned := catalog.ReturnItem(1, returnDate);
    var twice := catalog.ReturnItem(1, other);
    assert returned == Ok(0) && twice == Err(NotBorrowed);
    assert catalog.fines == map[] && catalog.TotalFines() == 0;
  }

  /** Unknown ids and malformed dates are reported and change nothing. */
  method Failures() {
    var catalog := new LibraNet();
    var missing := catalog.BorrowItem(999, "2024-01-01");
    assert missing == Fail(ItemNotFound(999));

    var magazine := new LibraryItem.EMagazine(7, "Nature", "Springer", 42);
    catalog.AddItem(magazine);
    assert !HasDateShape("01-01-2024");
    var bad := catalog.BorrowItem(7, "01-01-2024");
    assert bad == Fail(InvalidDate) && magazine.isAvailable && magazine.dueDate == None;
    assert ParseDate("2023-02-29") == None;
    var leap := catalog.BorrowItem(7, "2023-02-29");
    assert leap == Fail(InvalidDate) && magazine.isAvailable;

  }

  /** An archived issue stays archived through a loan made by the catalog. */
  method ArchivedThroughLoan(borrowDate: string, returnDate: string)
    requires ParseDate(borrowDate).Some? && ParseDate(returnDate).Some?
  {
    var catalog := new LibraNet();
    var magazine := new LibraryItem.EMagazine(7, "Nature", "Springer", 42);
    catalog.AddItem(magazine);
    magazine.ArchiveIssue();
    assert magazine.isArchived && catalog.GetItem(7) == Some(magazine);

    var out := catalog.BorrowItem(7, borrowDate);
    var back := catalog.ReturnItem(7, returnDate);
    assert out == Pass && back.Ok? && magazine.isArchived;
  }

  /** How the sample titles compare with the query "gatsby", ignoring case. */
  lemma SampleTitleMatches()
    ensures ContainsIgnoringCase("The Great Gatsby", "gatsby")
    ensures !ContainsIgnoringCase("Dune", "gatsby")
  {
    assert OccursAt(ToLower("The Great Gatsby"), ToLower("gatsby"), 10);
    ContainsOccurs(ToLower("The Great Gatsby"), ToLower("gatsby"));
    assert !Contains(ToLower("Dune"), ToLower("gatsby"));
  }

  /** A lower-case query finds a title written in mixed case, and only that one. */
  method CaseInsensitiveSearch() {
    var catalog := new LibraNet();
    var book := new LibraryItem.Book(1, "The Great Gatsby", "F. Scott Fitzgerald", 180);
    var audio := new LibraryItem.Audiobook(2, "Dune", "Frank Herbert", 21.0);
    catalog.AddItem(book);
    catalog.AddItem(audio);
    SampleTitleMatches();
    assert catalog.SearchByTitle("gatsby") == {book};
  }

  /** The type search lists the audiobook and nothing else. */
  method TypeSearch() {
    var catalog := new LibraNet();
    var book := new LibraryItem.Book(1, "The Great Gatsby", "F. Scott Fitzgerald", 180);
    var audio := new LibraryItem.Audiobook(2, "Dune", "Frank Herbert", 21.0);
    catalog.AddItem(book);
    catalog.AddItem(audio);
    assert catalog.SearchByType(AudiobookKind) == {audio};
  }
}
