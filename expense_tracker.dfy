/** The expense tracker's record store: the JSON document with its id counter,
    the pool of recyclable ids, the add and delete operations, and the
    validators of the command-line fields. */
module ExpenseTracker {
  import opened Wrappers
  import opened PyText

  /** One value of `items`: `{"description": ..., "amount": ..., "date": ...}`. */
  datatype Entry = Entry(description: string, amount: real, date: string)

  /** The `id_counter` section: the next fresh id and the recycle pool `available_ids`. */
  datatype IdCounter = IdCounter(counter: nat, availableIds: seq<nat>)

  /** The whole JSON document `{"id_counter": ..., "items": {str(id): Entry}}`. */
  datatype Document = Document(idCounter: IdCounter, items: map<string, Entry>)

  /** The document written when `expenseDB.json` does not exist yet. */
  function Bootstrap(): (d: Document)
    ensures d.idCounter.counter == 1 && d.idCounter.availableIds == [] && d.items == map[]
  {
    Document(IdCounter(1, []), map[])
  }

  predicate Sorted(s: seq<nat>) {
    forall i, j :: 0 <= i < j < |s| ==> s[i] <= s[j]
  }

  predicate StrictlySorted(s: seq<nat>) {
    forall i, j :: 0 <= i < j < |s| ==> s[i] < s[j]
  }

  /** Id allocation of `add_expense_record`: the head of the pool when there is
      one, otherwise the counter, which then moves on by one. */
  function Allocate(c: IdCounter): (r: (nat, IdCounter))
    ensures c.availableIds != [] ==> r.0 in c.availableIds && r.1.counter == c.counter
    ensures c.availableIds != [] && Sorted(c.availableIds) ==>
              forall x :: x in c.availableIds ==> r.0 <= x
    ensures c.availableIds == [] ==> r.0 == c.counter && r.1.counter == c.counter + 1
    ensures |r.1.availableIds| == if c.availableIds == [] then 0 else |c.availableIds| - 1
    ensures multiset(r.1.availableIds) + multiset{r.0} ==
              if c.availableIds == [] then multiset{c.counter} else multiset(c.availableIds)
  {
    if c.availableIds != [] then
      assert c.availableIds == [c.availableIds[0]] + c.availableIds[1..];
      (c.availableIds[0], c.(availableIds := c.availableIds[1..]))
    else
      (c.counter, c.(counter := c.counter + 1))
  }

  /** The ids handed out by `n` consecutive adds, and the counter state after them. */
  function AllocateMany(c: IdCounter, n: nat): (IdCounter, seq<nat>)
    decreases n
  {
    if n == 0 then (c, [])
    else
      var (id, c1) := Allocate(c);
      var (c2, ids) := AllocateMany(c1, n - 1);
      (c2, [id] + ids)
  }

  /** With an empty pool, `n` adds issue `counter, counter + 1, ...` in order. */
  lemma {:induction false} AllocateManyFromEmptyPool(k: nat, n: nat)
    ensures AllocateMany(IdCounter(k, []), n).0 == IdCounter(k + n, [])
    ensures AllocateMany(IdCounter(k, []), n).1 == seq(n, i => k + i)
    decreases n
  {
    if n > 0 {
      assert Allocate(IdCounter(k, [])) == (k, IdCounter(k + 1, []));
      AllocateManyFromEmptyPool(k + 1, n - 1);
      assert seq(n, i => k + i) == [k] + seq(n - 1, i => k + 1 + i);
    }
  }

  /** From the bootstrap document, `n` adds with no delete issue ids 1..n and leave counter n + 1. */
  lemma FreshStoreIssuesOneToN(n: nat)
    ensures AllocateMany(Bootstrap().idCounter, n).0 == IdCounter(n + 1, [])
    ensures AllocateMany(Bootstrap().idCounter, n).1 == seq(n, i => i + 1)
  {
    AllocateManyFromEmptyPool(1, n);
    assert seq(n, i => 1 + i) == seq(n, i => i + 1);
  }

  /** With pool [2, 5] and counter 9, three adds issue 2, 5 and 9 and leave counter 10. */
  lemma LowestFitExample()
    ensures AllocateMany(IdCounter(9, [2, 5]), 3).0 == IdCounter(10, [])
    ensures AllocateMany(IdCounter(9, [2, 5]), 3).1 == [2, 5, 9]
  {
    assert [2, 5][1..] == [5];
    assert [5][1..] == [];
  }

  /** A consistent store: the pool is strictly ascending and below the counter, and
      every item key is the decimal form (no leading zero) of an issued id that is
      not in the pool, so no two keys name the same id. */
  predicate WellFormed(d: Document) {
    StrictlySorted(d.idCounter.availableIds)
    && (forall x :: x in d.idCounter.availableIds ==> 0 < x < d.idCounter.counter)
    && 0 < d.idCounter.counter
    && (forall k :: k in d.items ==>
          AllDigits(k) && k == Str(ParseDecimal(k)) && 0 < ParseDecimal(k) < d.idCounter.counter
          && ParseDecimal(k) !in d.idCounter.availableIds)
  }

  /** On a consistent store, `add` never overwrites an existing item and keeps the store consistent. */
  lemma AddKeepsWellFormed(d: Document, e: Entry)
    requires WellFormed(d)
    ensures var (id, c) := Allocate(d.idCounter);
            Str(id) !in d.items && WellFormed(Document(c, d.items[Str(id) := e]))
  {
    var (id, c) := Allocate(d.idCounter);
    ParseStr(id);
    var pool := d.idCounter.availableIds;
    if pool != [] {
      assert id == pool[0];
      assert forall x :: x in c.availableIds ==> x in pool && x != id by {
        forall x | x in c.availableIds ensures x in pool && x != id {
          var j :| 0 <= j < |c.availableIds| && c.availableIds[j] == x;
          assert pool[j + 1] == x;
        }
      }
    }
  }

  /** Python's `list.sort()` on the pool: the ascending arrangement of its elements. */
  function SortIds(s: seq<nat>): seq<nat>
  {
    if s == [] then [] else InsertSorted(s[0], SortIds(s[1..]))
  }

  function InsertSorted(x: nat, s: seq<nat>): seq<nat>
  {
    if s == [] || x <= s[0] then [x] + s else [s[0]] + InsertSorted(x, s[1..])
  }

  lemma {:induction false} InsertSortedPermutes(x: nat, s: seq<nat>)
    ensures multiset(InsertSorted(x, s)) == multiset(s) + multiset{x}
  {
    if s != [] && x > s[0] {
      InsertSortedPermutes(x, s[1..]);
      assert s == [s[0]] + s[1..];
    }
  }

  /** A sequence is ascending when its head is at most every later element and its tail is ascending. */
  lemma SortedCons(y: nat, t: seq<nat>)
    requires Sorted(t)
    requires forall z :: z in t ==> y <= z
    ensures Sorted([y] + t)
  {
    var r := [y] + t;
    forall i, j | 0 <= i < j < |r| ensures r[i] <= r[j] {
      if i > 0 {
        assert r[i] == t[i - 1] && r[j] == t[j - 1];
      } else {
        assert r[0] == y && r[j] == t[j - 1] && t[j - 1] in t;
      }
    }
  }

  lemma {:induction false} InsertSortedCorrect(x: nat, s: seq<nat>)
    requires Sorted(s)
    ensures Sorted(InsertSorted(x, s))
    ensures multiset(InsertSorted(x, s)) == multiset(s) + multiset{x}
  {
    InsertSortedPermutes(x, s);
    if s == [] {
    } else if x <= s[0] {
      forall z | z in s ensures x <= z {
        var j :| 0 <= j < |s| && s[j] == z;
        assert s[0] <= s[j];
      }
      SortedCons(x, s);
    } else {
      var t := InsertSorted(x, s[1..]);
      assert Sorted(s[1..]) by {
        forall i, j | 0 <= i < j < |s[1..]| ensures s[1..][i] <= s[1..][j] {
          assert s[1..][i] == s[i + 1] && s[1..][j] == s[j + 1];
        }
      }
      InsertSortedCorrect(x, s[1..]);
      forall z | z in t ensures s[0] <= z {
        assert z in multiset(t);
        assert z == x || z in multiset(s[1..]);
        if z != x {
          var j :| 0 <= j < |s[1..]| && s[1..][j] == z;
          assert s[j + 1] == z;
        }
      }
      SortedCons(s[0], t);
    }
  }

  /** Sorting yields an ascending permutation of the pool. */
  lemma {:induction false} SortIdsCorrect(s: seq<nat>)
    ensures Sorted(SortIds(s))
    ensures multiset(SortIds(s)) == multiset(s)
  {
    if s != [] {
      SortIdsCorrect(s[1..]);
      InsertSortedCorrect(s[0], SortIds(s[1..]));
      assert s == [s[0]] + s[1..];
    }
  }

  /** After `delete(id)` the pool is ascending and holds `id`, so the next `add`
      issues an id no larger than `id`: the smallest pooled one. */
  lemma DeleteThenAddReusesSmallest(c: IdCounter, id: nat)
    ensures var pool := SortIds(c.availableIds + [id]);
            Sorted(pool) && id in pool
            && Allocate(IdCounter(c.counter, pool)).0 <= id
            && (forall x :: x in pool ==> Allocate(IdCounter(c.counter, pool)).0 <= x)
  {
    var pool := SortIds(c.availableIds + [id]);
    SortIdsCorrect(c.availableIds + [id]);
    assert id in multiset(c.availableIds + [id]);
    assert id in multiset(pool);
  }

  /** The `Expense` class: its class-level fields and the document loaded from `expenseDB.json`. */
  class ExpenseStore {
    /** `Expense.id_counter`. */
    var idCounter: nat
    /** `Expense.available_ids`: after `_load_counter` this is the same list object as
        the document's `available_ids`, so every change to it shows in both. */
    var availableIds: seq<nat>
    /** `Expense.python_json_object`, the document held in memory. */
    var document: Document
    /** What `expenseDB.json` holds after the last write. */
    ghost var persisted: Document

    /** The pool is shared with the document and the counter section is up to date. */
    ghost predicate Valid()
      reads this
    {
      document.idCounter == IdCounter(idCounter, availableIds)
    }

    /** Class definition plus `__init__`: load the stored document, or write and
        read back the bootstrap document when there is none; then `_load_counter`. */
    constructor (stored: Option<Document>)
      ensures document == (if stored.Some? then stored.value else Bootstrap())
      ensures persisted == document
      ensures idCounter == document.idCounter.counter
      ensures availableIds == document.idCounter.availableIds
      ensures Valid()
    {
      document := if stored.Some? then stored.value else Bootstrap();
      persisted := document;
      idCounter := 1;
      availableIds := [];
      new;
      LoadCounter();
    }

    /** `_load_counter`: copy the counter section of the document into the class fields. */
    method LoadCounter()
      modifies this
      ensures idCounter == document.idCounter.counter
      ensures availableIds == document.idCounter.availableIds
      ensures document == old(document) && persisted == old(persisted)
      ensures Valid()
    {
      idCounter := document.idCounter.counter;
      availableIds := document.idCounter.availableIds;
    }

    /** `_write_counter`: store the class fields in the document and write it out. */
    method WriteCounter()
      modifies this
      ensures document == old(document).(idCounter := IdCounter(idCounter, availableIds))
      ensures idCounter == old(idCounter) && availableIds == old(availableIds)
      ensures persisted == document
      ensures Valid()
    {
      document := document.(idCounter := IdCounter(idCounter, availableIds));
      persisted := document;
    }

    /** `_final_writing`: write the in-memory document as it stands. */
    method FinalWriting()
      modifies this
      ensures persisted == document
      ensures document == old(document) && idCounter == old(idCounter) && availableIds == old(availableIds)
    {
      persisted := document;
    }

    /** `add_expense_record`; `date` stands for `datetime.now().strftime("%Y-%m-%d")`. */
    method AddExpenseRecord(description: string, amount: real, date: string) returns (id: nat)
      requires Valid()
      modifies this
      ensures Valid()
      ensures (id, IdCounter(idCounter, availableIds)) == Allocate(old(document.idCounter))
      ensures old(availableIds) != [] ==>
                id == old(availableIds[0]) && availableIds == old(availableIds[1..]) && idCounter == old(idCounter)
      ensures old(availableIds) == [] ==>
                id == old(idCounter) && idCounter == old(idCounter) + 1 && availableIds == []
      ensures document.items == old(document.items)[Str(id) := Entry(description, amount, date)]
      ensures persisted == document
    {
      if availableIds != [] {
        id := availableIds[0];
        availableIds := availableIds[1..];
        // `pop(0)` acts on the list the document shares.
        document := document.(idCounter := document.idCounter.(availableIds := availableIds));
      } else {
        id := idCounter;
        idCounter := idCounter + 1;
      }
      document := document.(items := document.items[Str(id) := Entry(description, amount, date)]);
      FinalWriting();
      WriteCounter();
    }

    /** `delete`: return `id` to the pool and sort it. The item itself stays in the
        document and nothing is written to the file. */
    method Delete(id: nat)
      requires Valid()
      modifies this
      ensures Valid()
      ensures availableIds == SortIds(old(availableIds) + [id])
      ensures Sorted(availableIds) && multiset(availableIds) == multiset(old(availableIds)) + multiset{id}
      ensures idCounter == old(idCounter) && document.items == old(document.items)
      ensures persisted == old(persisted)
    {
      availableIds := availableIds + [id];
      availableIds := SortIds(availableIds);
      SortIdsCorrect(old(availableIds) + [id]);
      document := document.(idCounter := document.idCounter.(availableIds := availableIds));
    }
  }

  /** Add three records to a fresh store, delete id 2, add again: the new record gets id 2, not 4. */
  method DeleteThenAddScenario(description: string, amount: real, date: string)
    returns (issued: seq<nat>, reused: nat)
    ensures issued == [1, 2, 3] && reused == 2
  {
    var store := new ExpenseStore(None);
    var a := store.AddExpenseRecord(description, amount, date);
    var b := store.AddExpenseRecord(description, amount, date);
    var c := store.AddExpenseRecord(description, amount, date);
    issued := [a, b, c];
    store.Delete(2);
    assert store.availableIds == [2];
    reused := store.AddExpenseRecord(description, amount, date);
  }

  /** `delete` keeps the item, so deleting a stored id leaves a store that is no
      longer consistent: the id is both pooled and a key of `items`. */
  lemma DeleteBreaksWellFormed(d: Document, id: nat)
    requires WellFormed(d) && Str(id) in d.items
    ensures !WellFormed(Document(d.idCounter.(availableIds := SortIds(d.idCounter.availableIds + [id])), d.items))
  {
    ParseStr(id);
    SortIdsCorrect(d.idCounter.availableIds + [id]);
    assert id in multiset(d.idCounter.availableIds + [id]);
    assert id in SortIds(d.idCounter.availableIds + [id]);
  }

  /** When every pooled id is above the deleted one, the next `add` issues that id
      again, and its key is still in `items`: the add overwrites the old item. */
  lemma AddAfterDeleteOverwrites(d: Document, id: nat)
    requires Str(id) in d.items
    requires forall x :: x in d.idCounter.availableIds ==> id < x
    ensures var pool := SortIds(d.idCounter.availableIds + [id]);
            Allocate(IdCounter(d.idCounter.counter, pool)).0 == id
            && Str(Allocate(IdCounter(d.idCounter.counter, pool)).0) in d.items
  {
    var pool := SortIds(d.idCounter.availableIds + [id]);
    DeleteThenAddReusesSmallest(d.idCounter, id);
    SortIdsCorrect(d.idCounter.availableIds + [id]);
    var r := Allocate(IdCounter(d.idCounter.counter, pool)).0;
    assert r in multiset(d.idCounter.availableIds + [id]);
    assert r in d.idCounter.availableIds || r == id;
  }

  /** Deleting the same id twice pools it twice, and the next two adds both issue it. */
  method DoubleDeleteScenario(description: string, amount: real, date: string)
    returns (first: nat, second: nat)
    ensures first == 1 && second == 1
  {
    var store := new ExpenseStore(None);
    var a := store.AddExpenseRecord(description, amount, date);
    var b := store.AddExpenseRecord(description, amount, date);
    assert store.availableIds == [];
    store.Delete(1);
    assert SortIds([1]) == [1];
    assert store.availableIds == [1];
    store.Delete(1);
    assert SortIds([1, 1]) == InsertSorted(1, SortIds([1]));
    assert store.availableIds == [1, 1];
    first := store.AddExpenseRecord(description, amount, date);
    second := store.AddExpenseRecord(description, amount, date);
  }

  /** Which message `validate_string` and `validate_amount`/`validate_month_input` end with. */
  datatype InputError = WhitespaceOnly | Empty | NotPositive | MonthOutOfRange

  /** `validate_string`: rejects an all-whitespace string, then the empty string. */
  function ValidateString(s: string): (r: Result<string, InputError>)
    ensures r.Ok? <==> s != "" && !IsSpace(s)
    ensures r.Ok? ==> r.value == s
    ensures r == Err(WhitespaceOnly) <==> IsSpace(s)
    ensures r == Err(Empty) <==> s == ""
  {
    if IsSpace(s) then Err(WhitespaceOnly)
    else if s == "" then Err(Empty)
    else Ok(s)
  }

  /** `validate_amount` on an already parsed number: only amounts above zero pass. */
  function ValidateAmount(amount: real): (r: Result<real, InputError>)
    ensures r.Ok? <==> amount > 0.0
    ensures r.Ok? ==> r.value == amount
  {
    if amount <= 0.0 then Err(NotPositive) else Ok(amount)
  }

  /** `validate_month_input` on an already parsed integer: only 1..12 pass. */
  function ValidateMonthInput(month: int): (r: Result<int, InputError>)
    ensures r.Ok? <==> 1 <= month <= 12
    ensures r.Ok? ==> r.value == month
  {
    if month <= 12 && month >= 1 then Ok(month) else Err(MonthOutOfRange)
  }
}
