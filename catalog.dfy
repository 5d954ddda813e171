/**
 * The `LibraNet` catalog: items by id, a ledger of accumulated fines by id,
 * borrow/return by id, and the search and listing views.
 */
module Catalog {
  import opened Wrappers
  import opened Dates
  import opened Text
  import opened Items

  // ---------------------------------------------------------------------------
  // The fines ledger as a value

  /** Every recorded fine is a positive whole number of overdue days times the rate. */
  predicate LedgerValid(ledger: map<int, int>) {
    forall id :: id in ledger ==> ledger[id] > 0 && ledger[id] % FineRate == 0
  }

  /**
   * `fines.getOrDefault(id, 0.0)`. On a valid ledger it is a non-negative
   * multiple of the rate, positive exactly for the ids that have an entry.
   */
  function FinesFor(ledger: map<int, int>, id: int): (amount: int)
    ensures LedgerValid(ledger) ==> amount >= 0 && amount % FineRate == 0
    ensures LedgerValid(ledger) ==> (amount > 0 <==> id in ledger)
  {
    if id in ledger then ledger[id] else 0
  }

  /** The step `returnItem` applies to the ledger: a positive fine is added to the entry for `id`. */
  function RecordFine(ledger: map<int, int>, id: int, fine: int): (r: map<int, int>)
    ensures forall other :: other != id ==> FinesFor(r, other) == FinesFor(ledger, other) && (other in r <==> other in ledger)
    ensures FinesFor(r, id) == FinesFor(ledger, id) + (if fine > 0 then fine else 0)
    ensures r.Keys <= ledger.Keys + {id}
  {
    if fine > 0 then ledger[id := FinesFor(ledger, id) + fine] else ledger
  }

  /**
   * A set of ids is empty or has a member. Stated separately because the
   * verifier does not produce a member from `keys != {}` on its own; the
   * `:|` choices in `MinimumExists` rely on it.
   */
  lemma EmptyOrMember(keys: set<int>)
    ensures keys == {} || exists k :: k in keys
  {
    var none: set<int> := {};
    if forall k :: k !in keys {
      assert forall k :: k in keys <==> k in none;
    }
  }

  lemma {:induction false} MinimumExists(keys: set<int>)
    requires keys != {}
    ensures exists k :: k in keys && forall j :: j in keys ==> k <= j
    decreases |keys|
  {
    EmptyOrMember(keys);
    var x :| x in keys;
    var rest := keys - {x};
    assert forall j :: j in keys ==> j == x || j in rest;
    if rest == {} {
      assert forall j :: j in keys ==> x <= j;
    } else {
      MinimumExists(rest);
      var m :| m in rest && forall j :: j in rest ==> m <= j;
      var least := if x < m then x else m;
      assert forall j :: j in keys ==> j == x || j in rest;
      assert least in keys && forall j :: j in keys ==> least <= j;
    }
  }

  /** The least id in a non-empty set of ids; it fixes the order in which `SumFines` visits entries. */
  function MinKey(keys: set<int>): (k: int)
    requires keys != {}
    ensures k in keys && forall j :: j in keys ==> k <= j
  {
    MinimumExists(keys);
    var k :| k in keys && forall j :: j in keys ==> k <= j;
    k
  }

  /**
   * `getTotalFines`: the sum of all ledger entries, visited in increasing id
   * order. The empty ledger sums to 0, and entries that are all non-negative
   * give a non-negative total.
   */
  function SumFines(ledger: map<int, int>): (total: int)
    ensures ledger == map[] ==> total == 0
    ensures (forall id :: id in ledger ==> ledger[id] >= 0) ==> total >= 0
    decreases |ledger|
  {
    if ledger == map[] then 0
    else
      var k := MinKey(ledger.Keys);
      var rest := ledger - {k};
      assert forall id :: id in rest ==> rest[id] == ledger[id];
      ledger[k] + SumFines(rest)
  }

  /** The sum does not depend on the order of the entries: any one entry can be taken out first. */
  lemma {:induction false} SumFinesWithout(ledger: map<int, int>, id: int)
    requires id in ledger
    ensures SumFines(ledger) == ledger[id] + SumFines(ledger - {id})
    decreases |ledger|
  {
    var k := MinKey(ledger.Keys);
    if k != id {
      SumFinesWithout(ledger - {k}, id);
      SumFinesWithout(ledger - {id}, k);
      assert ledger - {k} - {id} == ledger - {id} - {k};
    }
  }

  /** Recording a fine raises the total by exactly that fine. */
  lemma RecordFineTotal(ledger: map<int, int>, id: int, fine: int)
    requires fine >= 0
    ensures SumFines(RecordFine(ledger, id, fine)) == SumFines(ledger) + fine
  {
    if fine > 0 {
      var r := RecordFine(ledger, id, fine);
      SumFinesWithout(r, id);
      if id in ledger {
        SumFinesWithout(ledger, id);
        assert r - {id} == ledger - {id};
      } else {
        assert r - {id} == ledger;
      }
    }
  }

  /** Recording a fine keeps the ledger valid. */
  lemma RecordFineValid(ledger: map<int, int>, id: int, fine: int)
    requires LedgerValid(ledger) && fine >= 0 && fine % FineRate == 0
    ensures LedgerValid(RecordFine(ledger, id, fine))
  {
  }

  /** On a valid ledger the total is a non-negative multiple of the rate and bounds every entry. */
  lemma {:induction false} SumFinesBounds(ledger: map<int, int>, id: int)
    ensures LedgerValid(ledger) ==> SumFines(ledger) >= 0 && SumFines(ledger) % FineRate == 0
    ensures LedgerValid(ledger) ==> 0 <= FinesFor(ledger, id) <= SumFines(ledger)
    decreases |ledger|
  {
    if ledger != map[] && LedgerValid(ledger) {
      var k := MinKey(ledger.Keys);
      SumFinesBounds(ledger - {k}, id);
      if id in ledger && id != k {
        assert FinesFor(ledger - {k}, id) == ledger[id];
      }
    }
  }

  // ---------------------------------------------------------------------------
  // The catalog object

  /** `LibraNet`: owns the items (keyed by their own ids) and the fines ledger. */
  class LibraNet {
    var items: map<int, LibraryItem>
    var fines: map<int, int>

    /** Each item sits under its own id and is valid (stated per id and per stored object), and fines are kept only for known ids. */
    ghost predicate Valid()
      reads this, items.Values
    {
      && (forall id :: id in items ==> items[id].id == id && items[id].Valid())
      && (forall item :: item in items.Values ==> item.Valid())
      && fines.Keys <= items.Keys
      && LedgerValid(fines)
    }

    /** `new LibraNet()`: no items, no fines. */
    constructor ()
      ensures Valid() && items == map[] && fines == map[]
    {
      items, fines := map[], map[];
    }

    /** `addItem`: the item is stored under its id, replacing any earlier item with that id. */
    method AddItem(item: LibraryItem)
      requires Valid() && item.Valid()
      modifies this`items
      ensures Valid()
      ensures items == old(items)[item.id := item] && fines == old(fines)
      ensures GetItem(item.id) == Some(item)
      ensures forall id :: id != item.id ==> GetItem(id) == old(GetItem(id))
    {
      items := items[item.id := item];
    }

    /** `getItem`: the item stored under `id`, or `None` for Java's `null`. */
    function GetItem(id: int): (r: Option<LibraryItem>)
      reads this, items.Values
      ensures r.Some? <==> id in items
      ensures r.Some? ==> r.value in items.Values
      ensures Valid() && r.Some? ==> r.value.id == id && r.value.Valid()
    {
      if id in items then Some(items[id]) else None
    }

    /** `borrowItem(id, date)`: an unknown id fails with `ItemNotFound`; otherwise the item's own `borrowItem` decides. */
    method BorrowItem(id: int, borrowDate: string) returns (r: Outcome<LibraryError>)
      requires Valid()
      modifies if id in items then {items[id]} else {}
      ensures Valid()
      ensures items == old(items) && fines == old(fines)
      ensures id !in items ==> r == Fail(ItemNotFound(id))
      ensures id in items ==> match Borrow(old(items[id].State()), borrowDate)
        case Ok(next) => r == Pass && items[id].State() == next
        case Err(e) => r == Fail(e) && items[id].State() == old(items[id].State())
      ensures id in items ==> items[id].isArchived == old(items[id].isArchived)
      ensures forall other :: other in items && other != id ==> items[other].State() == old(items[other].State())
    {
      if id !in items {
        return Fail(ItemNotFound(id));
      }
      var item := items[id];
      r := item.BorrowItem(borrowDate);
    }

    /**
     * `returnItem(id, date)`: an unknown id fails with `ItemNotFound`; otherwise
     * the item's own `returnItem` decides, and a positive fine is added to the
     * ledger entry of `id`. The total grows by exactly the fine returned.
     */
    method ReturnItem(id: int, returnDate: string) returns (r: Result<int, LibraryError>)
      requires Valid()
      modifies this`fines, if id in items then {items[id]} else {}
      ensures Valid()
      ensures items == old(items)
      ensures id !in items ==> r == Err(ItemNotFound(id)) && fines == old(fines)
      ensures id in items ==> match Return(old(items[id].State()), returnDate)
        case Ok(ret) => r == Ok(ret.fine) && items[id].State() == ret.loan && fines == RecordFine(old(fines), id, ret.fine)
        case Err(e) => r == Err(e) && items[id].State() == old(items[id].State()) && fines == old(fines)
      ensures id in items ==> items[id].isArchived == old(items[id].isArchived)
      ensures forall other :: other in items && other != id ==> items[other].State() == old(items[other].State())
      ensures TotalFines() == old(TotalFines()) + (if r.Ok? then r.value else 0)
    {
      if id !in items {
        return Err(ItemNotFound(id));
      }
      var item := items[id];
      r := item.ReturnItem(returnDate);
      if r.Ok? {
        ChargeFine(id, r.value);
      }
    }

    /** The ledger half of `returnItem`: a positive fine is added to the entry for `id`. */
    method ChargeFine(id: int, fine: int)
      requires Valid() && id in items && fine >= 0 && fine % FineRate == 0
      modifies this`fines
      ensures Valid()
      ensures fines == RecordFine(old(fines), id, fine)
      ensures TotalFines() == old(TotalFines()) + fine
    {
      RecordFineTotal(fines, id, fine);
      RecordFineValid(fines, id, fine);
      fines := RecordFine(fines, id, fine);
    }

    /** `getTotalFines`: 0 with no fines, otherwise a non-negative multiple of the fine rate. */
    function TotalFines(): (total: int)
      reads this
      ensures fines == map[] ==> total == 0
      ensures LedgerValid(fines) ==> total >= 0 && total % FineRate == 0
    {
      SumFinesBounds(fines, 0);
      SumFines(fines)
    }

    /** `getFinesForItem`: the ledger entry, zero for an id with no fines, and never more than the total. */
    function GetFinesForItem(id: int): (f: int)
      reads this
      ensures id in fines ==> f == fines[id]
      ensures id !in fines ==> f == 0
      ensures LedgerValid(fines) ==> 0 <= f <= TotalFines() && f % FineRate == 0
    {
      SumFinesBounds(fines, id);
      FinesFor(fines, id)
    }

    /** `searchByTitle`: the items whose lower-cased title contains the lower-cased query. */
    function SearchByTitle(query: string): (r: set<LibraryItem>)
      reads this
      ensures r <= items.Values
      ensures forall id :: id in items ==> (items[id] in r <==> ContainsIgnoringCase(items[id].title, query))
    {
      set item | item in items.Values && ContainsIgnoringCase(item.title, query)
    }

    /** `searchByAuthor`: the items whose lower-cased author contains the lower-cased query. */
    function SearchByAuthor(query: string): (r: set<LibraryItem>)
      reads this
      ensures r <= items.Values
      ensures forall id :: id in items ==> (items[id] in r <==> ContainsIgnoringCase(items[id].author, query))
    {
      set item | item in items.Values && ContainsIgnoringCase(item.author, query)
    }

    /** `searchByType`: the items of the requested kind. */
    function SearchByType(kind: Kind): (r: set<LibraryItem>)
      reads this
      ensures r <= items.Values
      ensures forall id :: id in items ==> (items[id] in r <==> KindOf(items[id].variant) == kind)
    {
      set item | item in items.Values && KindOf(item.variant) == kind
    }

    /** `getAvailableItems`. */
    function GetAvailableItems(): (r: set<LibraryItem>)
      reads this, items.Values
      ensures r <= items.Values
      ensures forall id :: id in items ==> (items[id] in r <==> items[id].CheckAvailability())
    {
      set item | item in items.Values && item.CheckAvailability()
    }

    /** `getBorrowedItems`. */
    function GetBorrowedItems(): (r: set<LibraryItem>)
      reads this, items.Values
      ensures r <= items.Values
      ensures forall id :: id in items ==> (items[id] in r <==> !items[id].CheckAvailability())
    {
      set item | item in items.Values && !item.CheckAvailability()
    }
  }

  // ---------------------------------------------------------------------------
  // Properties of the views

  /** Available and borrowed items split the catalog, and every borrowed item has a due date. */
  lemma AvailableBorrowedPartition(c: LibraNet)
    requires c.Valid()
    ensures c.GetAvailableItems() + c.GetBorrowedItems() == c.items.Values
    ensures c.GetAvailableItems() !! c.GetBorrowedItems()
    ensures forall item :: item in c.GetBorrowedItems() ==> item.dueDate.Some?
  {
  }

  /** The three kinds split the catalog. */
  lemma KindPartition(c: LibraNet)
    ensures c.SearchByType(BookKind) + c.SearchByType(AudiobookKind) + c.SearchByType(EMagazineKind) == c.items.Values
    ensures c.SearchByType(BookKind) !! c.SearchByType(AudiobookKind)
    ensures c.SearchByType(BookKind) !! c.SearchByType(EMagazineKind)
    ensures c.SearchByType(AudiobookKind) !! c.SearchByType(EMagazineKind)
  {
  }

  /** An empty query lists every item, and every item is found by its own title and its own author. */
  lemma SearchEmptyAndSelf(c: LibraNet)
    ensures c.SearchByTitle("") == c.items.Values && c.SearchByAuthor("") == c.items.Values
    ensures forall item :: item in c.items.Values ==> item in c.SearchByTitle(item.title) && item in c.SearchByAuthor(item.author)
  {
    forall item | item in c.items.Values
      ensures item in c.SearchByTitle("") && item in c.SearchByAuthor("")
      ensures item in c.SearchByTitle(item.title) && item in c.SearchByAuthor(item.author)
    {
      ContainsEmptyAndSelf(item.title);
      ContainsEmptyAndSelf(item.author);
    }
  }

  /** A title that contains the query exactly is found whatever the case of either. */
  lemma SearchFindsExactSubstring(c: LibraNet, query: string)
    ensures forall item :: item in c.items.Values && Contains(item.title, query) ==> item in c.SearchByTitle(query)
  {
    forall item | item in c.items.Values && Contains(item.title, query)
      ensures item in c.SearchByTitle(query)
    {
      ContainsIgnoringCaseOfContains(item.title, query);
    }
  }
}
