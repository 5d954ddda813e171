/**
 * Library items: the three kinds of item, the borrow/return state every item
 * carries, the pure transitions `Borrow` and `Return` that specify it, and the
 * `LibraryItem` class whose methods update that state in place.
 */
module Items {
  import opened Wrappers
  import opened Dates

  /** Days between borrowing and the due date (`plusDays(14)`). */
  const BorrowPeriod := 14

  /** `DEFAULT_FINE_RATE`: currency units charged per whole overdue day. */
  const FineRate := 10

  /** The failures `LibraryException` reports, one per message the core throws. */
  datatype LibraryError =
    | NotAvailable       // "Item is not available for borrowing"
    | NotBorrowed        // "Item was not borrowed"
    | InvalidDate        // "Invalid date format. Please use YYYY-MM-DD"
    | ItemNotFound(id: int)

  /** The data that tells the subclasses `Book`, `Audiobook` and `EMagazine` apart. */
  datatype Variant =
    | Book(pageCount: int)
    | Audiobook(duration: real)   // hours; carried along, never computed with
    | EMagazine(issueNumber: int)

  /** The runtime class `searchByType` asks for. */
  datatype Kind = BookKind | AudiobookKind | EMagazineKind

  function KindOf(v: Variant): Kind {
    match v
    case Book(_) => BookKind
    case Audiobook(_) => AudiobookKind
    case EMagazine(_) => EMagazineKind
  }

  /** The borrow/return state of one item: the fields `isAvailable` and `dueDate`. */
  datatype Loan = Loan(isAvailable: bool, dueDate: Option<Date>) {
    /** A borrowed item always has a due date; a returned one keeps its last one. */
    predicate Valid() {
      !isAvailable ==> dueDate.Some?
    }
  }

  /** The state a freshly constructed item starts in. */
  const NewLoan := Loan(true, None)

  /** What a successful return leaves behind and what it charges. */
  datatype Returned = Returned(loan: Loan, fine: int)

  /** Fine for returning on day `returned` an item due on day `due`. */
  function OverdueFine(due: Date, returned: Date): (fine: int)
    ensures fine >= 0 && fine % FineRate == 0
    ensures fine == 0 <==> returned <= due
  {
    if returned > due then (returned - due) * FineRate else 0
  }

  /**
   * `LibraryItem.borrowItem`: availability is checked before the date is parsed.
   * A successful borrow leaves a consistent loan that is out; the only failures
   * are `NotAvailable` and `InvalidDate`.
   */
  function Borrow(loan: Loan, borrowDate: string): (r: Result<Loan, LibraryError>)
    ensures r.Ok? ==> r.value.Valid() && !r.value.isAvailable
    ensures r.Err? ==> r.error == NotAvailable || r.error == InvalidDate
  {
    if !loan.isAvailable then Err(NotAvailable)
    else match ParseDate(borrowDate)
      case None => Err(InvalidDate)
      case Some(day) => Ok(Loan(false, Some(day + BorrowPeriod)))
  }

  /**
   * `LibraryItem.returnItem`: the item must be out, the date must parse; the
   * item becomes available again and its due date is left as it was. A
   * successful return leaves a consistent loan that is in and charges a
   * non-negative multiple of the rate; the only failures are `NotBorrowed` and
   * `InvalidDate`.
   */
  function Return(loan: Loan, returnDate: string): (r: Result<Returned, LibraryError>)
    requires loan.Valid()
    ensures r.Ok? ==> r.value.loan.Valid() && r.value.loan.isAvailable
    ensures r.Ok? ==> r.value.fine >= 0 && r.value.fine % FineRate == 0
    ensures r.Err? ==> r.error == NotBorrowed || r.error == InvalidDate
  {
    if loan.isAvailable then Err(NotBorrowed)
    else match ParseDate(returnDate)
      case None => Err(InvalidDate)
      case Some(day) => Ok(Returned(Loan(true, loan.dueDate), OverdueFine(loan.dueDate.value, day)))
  }

  // ---------------------------------------------------------------------------
  // Properties of the transitions

  /**
   * Borrowing succeeds exactly on an available item with a date that parses;
   * a borrowed item reports `NotAvailable` whatever the date string; an
   * available item with a bad date reports `InvalidDate`.
   */
  lemma BorrowOutcomes(loan: Loan, borrowDate: string)
    ensures Borrow(loan, borrowDate).Ok? <==> loan.isAvailable && ParseDate(borrowDate).Some?
    ensures !loan.isAvailable ==> Borrow(loan, borrowDate) == Err(NotAvailable)
    ensures loan.isAvailable && ParseDate(borrowDate).None? ==> Borrow(loan, borrowDate) == Err(InvalidDate)
    ensures Borrow(loan, borrowDate).Ok? ==>
      var next := Borrow(loan, borrowDate).value;
      !next.isAvailable && next.dueDate == Some(ParseDate(borrowDate).value + BorrowPeriod)
  {
  }

  /**
   * Returning succeeds exactly on a borrowed item with a date that parses; an
   * available item reports `NotBorrowed` whatever the date string.
   */
  lemma ReturnOutcomes(loan: Loan, returnDate: string)
    requires loan.Valid()
    ensures Return(loan, returnDate).Ok? <==> !loan.isAvailable && ParseDate(returnDate).Some?
    ensures loan.isAvailable ==> Return(loan, returnDate) == Err(NotBorrowed)
    ensures !loan.isAvailable && ParseDate(returnDate).None? ==> Return(loan, returnDate) == Err(InvalidDate)
    ensures Return(loan, returnDate).Ok? ==>
      var ret := Return(loan, returnDate).value;
      ret.loan.isAvailable && ret.loan.dueDate == loan.dueDate
  {
  }

  /** The fine is zero up to the due date and ten per day after it. */
  lemma OverdueFineByDays(due: Date, n: int)
    ensures OverdueFine(due, due + n) == if n <= 0 then 0 else FineRate * n
  {
  }

  /**
   * A full loan cycle: borrowing on day `b` and returning on day `t` makes the
   * item available again and charges nothing up to day `b + 14`, then ten per
   * day: `t - b - 14` overdue days cost `10 * (t - b - 14)`.
   */
  lemma BorrowThenReturn(loan: Loan, borrowDate: string, returnDate: string)
    requires loan.Valid() && loan.isAvailable
    requires ParseDate(borrowDate).Some? && ParseDate(returnDate).Some?
    ensures Borrow(loan, borrowDate).Ok?
    ensures
      var b, t := ParseDate(borrowDate).value, ParseDate(returnDate).value;
      var out := Borrow(loan, borrowDate).value;
      && Return(out, returnDate).Ok?
      && Return(out, returnDate).value.loan == Loan(true, Some(b + BorrowPeriod))
      && Return(out, returnDate).value.fine == (if t <= b + BorrowPeriod then 0 else FineRate * (t - b - BorrowPeriod))
  {
    var b, t := ParseDate(borrowDate).value, ParseDate(returnDate).value;
    OverdueFineByDays(b + BorrowPeriod, t - b - BorrowPeriod);
  }

  /** A borrowed item cannot be borrowed again, and a returned one cannot be returned again. */
  lemma NoDoubleTransition(loan: Loan, first: string, second: string)
    requires loan.Valid()
    ensures Borrow(loan, first).Ok? ==> Borrow(Borrow(loan, first).value, second) == Err(NotAvailable)
    ensures Return(loan, first).Ok? ==> Return(Return(loan, first).value.loan, second) == Err(NotBorrowed)
  {
  }

  // ---------------------------------------------------------------------------
  // The item object

  /** `LibraryItem` and its subclasses; the subclass is recorded in `variant`. */
  class LibraryItem {
    const id: int
    const title: string
    const author: string
    const variant: Variant
    var isAvailable: bool
    var dueDate: Option<Date>
    /** `EMagazine.isArchived`; no other kind of item ever sets it. */
    var isArchived: bool

    /** The object invariant: the loan state is consistent, and only e-magazines are archived. */
    ghost predicate Valid()
      reads this
    {
      State().Valid() && (isArchived ==> variant.EMagazine?)
    }

    /** The loan state as a value. */
    function State(): Loan
      reads this
    {
      Loan(isAvailable, dueDate)
    }

    /**
     * `checkAvailability`: true exactly when a borrow would not be refused as
     * `NotAvailable`, and, on a consistent item, exactly when a return would be
     * refused as `NotBorrowed`.
     */
    predicate CheckAvailability()
      reads this
      ensures forall date :: CheckAvailability() <==> Borrow(State(), date) != Err(NotAvailable)
      ensures Valid() ==> forall date :: CheckAvailability() <==> Return(State(), date) == Err(NotBorrowed)
    {
      isAvailable
    }

    /** `new Book(id, title, author, pageCount)`. */
    constructor Book(id: int, title: string, author: string, pageCount: int)
      ensures Valid()
      ensures this.id == id && this.title == title && this.author == author
      ensures variant == Variant.Book(pageCount) && State() == NewLoan && !isArchived
    {
      this.id, this.title, this.author := id, title, author;
      variant := Variant.Book(pageCount);
      isAvailable, dueDate, isArchived := true, None, false;
    }

    /** `new Audiobook(id, title, author, duration)`. */
    constructor Audiobook(id: int, title: string, author: string, duration: real)
      ensures Valid()
      ensures this.id == id && this.title == title && this.author == author
      ensures variant == Variant.Audiobook(duration) && State() == NewLoan && !isArchived
    {
      this.id, this.title, this.author := id, title, author;
      variant := Variant.Audiobook(duration);
      isAvailable, dueDate, isArchived := true, None, false;
    }

    /** `new EMagazine(id, title, author, issueNumber)`: not archived. */
    constructor EMagazine(id: int, title: string, author: string, issueNumber: int)
      ensures Valid()
      ensures this.id == id && this.title == title && this.author == author
      ensures variant == Variant.EMagazine(issueNumber) && State() == NewLoan && !isArchived
    {
      this.id, this.title, this.author := id, title, author;
      variant := Variant.EMagazine(issueNumber);
      isAvailable, dueDate, isArchived := true, None, false;
    }

    /** `borrowItem`: on success the item is out and due 14 days after the borrow date; on failure nothing changes. */
    method BorrowItem(borrowDate: string) returns (r: Outcome<LibraryError>)
      requires Valid()
      modifies this`isAvailable, this`dueDate
      ensures Valid()
      ensures match Borrow(old(State()), borrowDate)
        case Ok(next) => r == Pass && State() == next
        case Err(e) => r == Fail(e) && State() == old(State())
    {
      if !isAvailable {
        return Fail(NotAvailable);
      }
      var parsed := ParseDate(borrowDate);
      if parsed.None? {
        return Fail(InvalidDate);
      }
      dueDate := Some(parsed.value + BorrowPeriod);
      isAvailable := false;
      r := Pass;
    }

    /** `returnItem`: on success the item is available and the overdue fine is returned; on failure nothing changes. */
    method ReturnItem(returnDate: string) returns (r: Result<int, LibraryError>)
      requires Valid()
      modifies this`isAvailable
      ensures Valid()
      ensures match Return(old(State()), returnDate)
        case Ok(ret) => r == Ok(ret.fine) && State() == ret.loan
        case Err(e) => r == Err(e) && State() == old(State())
    {
      if isAvailable {
        return Err(NotBorrowed);
      }
      var parsed := ParseDate(returnDate);
      if parsed.None? {
        return Err(InvalidDate);
      }
      isAvailable := true;
      var due := dueDate.value;
      if parsed.value > due {
        var daysOverdue := parsed.value - due;
        return Ok(daysOverdue * FineRate);
      }
      r := Ok(0);
    }

    /** `EMagazine.archiveIssue`: sets the archived flag; calling it again changes nothing more. */
    method ArchiveIssue()
      requires Valid() && variant.EMagazine?
      modifies this`isArchived
      ensures Valid() && isArchived
    {
      isArchived := true;
    }
  }
}
