/** `BookRepository`: the book table's save, lookups, ISBN probes and delete.
    A read attaches each book's loans, and a delete takes the book's loans
    with it (the `cascade = ALL, orphanRemoval = true` collection). */
module BookRepository {
  import opened Wrappers
  import opened Errors
  import opened Emprunts
  import opened Books
  import opened Seqs
  import opened Database
  import EmpruntRepository

  /** The stored row with key `id`, before its loans are attached. */
  function Stored(s: Store, id: nat): (r: Option<Book>)
    ensures r.Some? <==> exists i :: 0 <= i < |s.books.rows| && s.books.rows[i].id == Some(id)
    ensures r.Some? ==> r.value.id == Some(id) && r.value in s.books.rows
  {
    Lookup(s.books.rows, BookKeys(s.books.rows), id)
  }

  /** A row as a read returns it: the columns as stored, and the loan list
      rebuilt from the loans that reference the book, in table order (the
      eagerly fetched inverse side of `Emprunt.book`). */
  function Load(s: Store, b: Book): (r: Book)
    ensures r == b.(emprunts := r.emprunts)
    ensures r.emprunts == Some(EmpruntRepository.FindByBookId(s, b.id))
  {
    b.(emprunts := Some(EmpruntRepository.FindByBook(s, b)))
  }

  /** A loaded book reports itself borrowed exactly when the loan table
      holds a running loan of it. */
  lemma LoadedOnLoanIffRunning(s: Store, b: Book)
    ensures IsEmprunte(Load(s, b)) <==> EmpruntRepository.HasRunningLoan(s, b.id)
  {
    var loans := Load(s, b).emprunts.value;
    var rows := s.emprunts.rows;
    if EmpruntRepository.HasRunningLoan(s, b.id) {
      var i :| 0 <= i < |rows| && Refers(rows[i].book, b.id) && IsEnCours(rows[i]);
      assert rows[i] in loans;
      var j :| 0 <= j < |loans| && loans[j] == rows[i];
      assert IsEmprunte(Load(s, b));
    }
  }

  /** `findById(id)`: the stored book with that key and its loans, or empty. */
  function FindById(s: Store, id: nat): (r: Option<Book>)
    ensures r.Some? <==> exists i :: 0 <= i < |s.books.rows| && s.books.rows[i].id == Some(id)
    ensures r.Some? ==> r.value.id == Some(id)
    ensures r.Some? ==> r.value.(emprunts := Stored(s, id).value.emprunts) == Stored(s, id).value
    ensures r.Some? ==> r.value.emprunts == Some(EmpruntRepository.FindByBookId(s, Some(id)))
  {
    match Stored(s, id)
    case None => None
    case Some(b) => Some(Load(s, b))
  }

  /** `findAll()`: every stored book, with its loans, in table order. */
  function FindAll(s: Store): (r: seq<Book>)
    ensures |r| == |s.books.rows|
    ensures forall i :: 0 <= i < |r| ==> r[i] == Load(s, s.books.rows[i])
    ensures forall k: nat :: FindById(s, k).Some? ==> FindById(s, k).value in r
  {
    var r := seq(|s.books.rows|, i requires 0 <= i < |s.books.rows| => Load(s, s.books.rows[i]));
    assert forall k: nat :: FindById(s, k).Some? ==> FindById(s, k).value in r by {
      forall k: nat | FindById(s, k).Some? ensures FindById(s, k).value in r {
        var i :| 0 <= i < |s.books.rows| && s.books.rows[i] == Stored(s, k).value;
        assert r[i] == FindById(s, k).value;
      }
    }
    r
  }

  /** Some row other than the one at `except` holds the ISBN; a null ISBN
      matches nothing, as `b.isbn = :isbn` with a null parameter. */
  predicate IsbnHeld(rows: seq<Book>, isbn: Option<string>, except: int) {
    isbn.Some? && exists j :: 0 <= j < |rows| && j != except && rows[j].isbn == isbn
  }

  function HasIsbn(isbn: Option<string>): (p: Book -> bool)
    ensures forall b :: p(b) == (isbn.Some? && b.isbn == isbn)
  {
    (b: Book) => isbn.Some? && b.isbn == isbn
  }

  /** Position of the first row holding `isbn`. */
  function FirstWithIsbn(rows: seq<Book>, isbn: Option<string>): (r: Option<nat>)
    ensures r.Some? ==> r.value < |rows| && isbn.Some? && rows[r.value].isbn == isbn
    ensures r.Some? ==> forall j :: 0 <= j < r.value ==> rows[j].isbn != isbn
    ensures r.None? <==> !IsbnHeld(rows, isbn, -1)
  {
    if isbn.None? || rows == [] then None
    else if rows[0].isbn == isbn then Some(0)
    else match FirstWithIsbn(rows[1..], isbn)
      case None => None
      case Some(j) => Some(j + 1)
  }

  /** `findByIsbn(isbn)`: the first book whose ISBN equals the argument, or
      empty; a null argument finds nothing. */
  function FindByIsbn(s: Store, isbn: Option<string>): (r: Option<Book>)
    ensures r.Some? <==> IsbnHeld(s.books.rows, isbn, -1)
    ensures r.Some? ==> r.value.isbn == isbn
    ensures r.Some? ==> exists i :: (0 <= i < |s.books.rows| && r.value == Load(s, s.books.rows[i])
      && forall j :: 0 <= j < i ==> s.books.rows[j].isbn != isbn)
  {
    match FirstWithIsbn(s.books.rows, isbn)
    case None => None
    case Some(i) => Some(Load(s, s.books.rows[i]))
  }

  /** `existsByIsbn(isbn)`: the count of books holding the ISBN is positive. */
  function ExistsByIsbn(s: Store, isbn: Option<string>): (r: bool)
    ensures r <==> IsbnHeld(s.books.rows, isbn, -1)
  {
    var holders := Filter(s.books.rows, HasIsbn(isbn));
    assert IsbnHeld(s.books.rows, isbn, -1) ==> holders != [] by {
      if IsbnHeld(s.books.rows, isbn, -1) {
        var j :| 0 <= j < |s.books.rows| && s.books.rows[j].isbn == isbn;
        assert s.books.rows[j] in holders;
      }
    }
    assert holders != [] ==> IsbnHeld(s.books.rows, isbn, -1) by {
      if holders != [] {
        assert holders[0] in s.books.rows;
      }
    }
    |holders| > 0
  }

  /** The existence probe and the lookup agree. */
  lemma ExistsIffFound(s: Store, isbn: Option<string>)
    ensures ExistsByIsbn(s, isbn) <==> FindByIsbn(s, isbn).Some?
  {
  }

  /** `save(book)`: a book without a key is inserted under the next key; a
      book with a key replaces the stored book with that key. The unique
      `isbn` column rejects an ISBN another row holds, and a merge of a key
      that names no row fails. The book's own loan list is not written
      here: the cascade of `persist` and `merge` to the listed loans, and the
      removal of stored loans missing from the list, are not modelled. The
      managers only save a new book with an empty list or a book just read,
      whose list is the stored one. */
  function Save(s: Store, b: Book): (r: Result<(Store, Book), Violation>)
    ensures b.id == None ==> (r.Failure? <==> IsbnHeld(s.books.rows, b.isbn, -1))
    ensures r.Failure? ==> r.error == UniqueIsbn || (r.error == StaleKey && b.id.Some? && Stored(s, b.id.value) == None)
    ensures b.id.Some? && Stored(s, b.id.value).Some? ==>
      (r.Failure? <==> IsbnHeld(s.books.rows, b.isbn, IndexOfKey(BookKeys(s.books.rows), b.id.value).value))
    ensures r.Success? ==> r.value.0.users == s.users && r.value.0.emprunts == s.emprunts
    ensures r.Success? && b.id == None ==>
      var (s', saved) := r.value;
      && saved == b.(id := Some(s.books.nextId))
      && s'.books.rows == s.books.rows + [saved]
      && s'.books.nextId == s.books.nextId + 1
      && (forall k: nat :: k != s.books.nextId ==> Stored(s', k) == Stored(s, k))
      && (KeysValid(BookKeys(s.books.rows), s.books.nextId) ==> Stored(s', s.books.nextId) == Some(saved))
    ensures r.Success? && b.id.Some? ==>
      var (s', saved) := r.value;
      && saved == b
      && |s'.books.rows| == |s.books.rows|
      && s'.books.nextId == s.books.nextId
      && Stored(s', b.id.value) == Some(b)
      && (forall k: nat :: k != b.id.value ==> Stored(s', k) == Stored(s, k))
      && var i := IndexOfKey(BookKeys(s.books.rows), b.id.value);
      && i.Some? && s'.books == s.books.(rows := s.books.rows[i.value := b])
  {
    var rows := s.books.rows;
    if b.id == None then
      if IsbnHeld(rows, b.isbn, -1) then Failure(UniqueIsbn)
      else
        var saved := b.(id := Some(s.books.nextId));
        var s' := s.(books := Table(rows + [saved], s.books.nextId + 1));
        assert BookKeys(rows + [saved]) == BookKeys(rows) + [saved.id];
        assert forall k: nat :: Stored(s', k) == (if k == s.books.nextId && Stored(s, k).None? then Some(saved) else Stored(s, k)) by {
          forall k: nat {
            LookupAppend(rows, BookKeys(rows), saved, saved.id, k);
          }
        }
        Success((s', saved))
    else
      match IndexOfKey(BookKeys(rows), b.id.value)
      case None => Failure(StaleKey)
      case Some(i) =>
        if IsbnHeld(rows, b.isbn, i) then Failure(UniqueIsbn)
        else
          var s' := s.(books := s.books.(rows := rows[i := b]));
          assert BookKeys(rows[i := b]) == BookKeys(rows);
          assert forall k: nat :: Stored(s', k) == (if k == b.id.value then Some(b) else Stored(s, k)) by {
            forall k: nat {
              LookupReplace(rows, BookKeys(rows), i, b, k);
            }
          }
          Success((s', b))
  }

  /** A successful save keeps the store consistent: keys stay issued and
      distinct, and the ISBN column stays unique. */
  lemma SaveConsistent(s: Store, b: Book)
    requires Consistent(s)
    requires Save(s, b).Success?
    ensures Consistent(Save(s, b).value.0)
  {
    var s' := Save(s, b).value.0;
    var rows := s.books.rows;
    if b.id == None {
      assert BookKeys(s'.books.rows) == BookKeys(rows) + [Some(s.books.nextId)];
      var rows' := s'.books.rows;
      forall i, j | 0 <= i < j < |rows'| && rows'[i].isbn.Some?
        ensures rows'[i].isbn != rows'[j].isbn
      {
        if j == |rows| {
          assert rows'[i] == rows[i];
        }
      }
    } else {
      var i := IndexOfKey(BookKeys(rows), b.id.value).value;
      assert s'.books.rows == rows[i := b];
      assert BookKeys(rows[i := b]) == BookKeys(rows);
      var rows' := rows[i := b];
      forall p, q | 0 <= p < q < |rows'| && rows'[p].isbn.Some?
        ensures rows'[p].isbn != rows'[q].isbn
      {
        if p == i {
          assert rows'[q] == rows[q];
        } else if q == i {
          assert rows'[p] == rows[p];
        }
      }
    }
  }

  /** `deleteById(id)`: removes the book with that key together with every
      loan that references it; does nothing when no book has the key. */
  function DeleteById(s: Store, id: nat): (s': Store)
    ensures Stored(s, id) == None ==> s' == s
    ensures s'.users == s.users
    ensures s'.books.nextId == s.books.nextId && s'.emprunts.nextId == s.emprunts.nextId
    ensures Stored(s, id).Some? ==> |s'.books.rows| == |s.books.rows| - 1
    ensures forall k: nat :: k != id ==> Stored(s', k) == Stored(s, k)
    ensures KeysValid(BookKeys(s.books.rows), s.books.nextId) ==> Stored(s', id) == None
    ensures var i := IndexOfKey(BookKeys(s.books.rows), id);
      i.Some? ==> s'.books.rows == s.books.rows[..i.value] + s.books.rows[i.value + 1..]
    ensures Stored(s, id).Some? ==>
      && (forall i :: 0 <= i < |s'.emprunts.rows| ==>
            s'.emprunts.rows[i] in s.emprunts.rows && !Refers(s'.emprunts.rows[i].book, Some(id)))
      && (forall i :: 0 <= i < |s.emprunts.rows| && !Refers(s.emprunts.rows[i].book, Some(id)) ==>
            s.emprunts.rows[i] in s'.emprunts.rows)
      && IsSubseq(s'.emprunts.rows, s.emprunts.rows)
  {
    var rows := s.books.rows;
    match IndexOfKey(BookKeys(rows), id)
    case None => s
    case Some(i) =>
      var rows' := rows[..i] + rows[i + 1..];
      var loans' := Filter(s.emprunts.rows, Not(EmpruntRepository.OfBook(Some(id))));
      var s' := s.(books := s.books.(rows := rows'), emprunts := s.emprunts.(rows := loans'));
      var keys := BookKeys(rows);
      assert BookKeys(rows') == keys[..i] + keys[i + 1..];
      assert forall k: nat :: k != id ==> Stored(s', k) == Stored(s, k) by {
        forall k: nat | k != id {
          LookupRemove(rows, keys, i, k);
        }
      }
      assert KeysValid(keys, s.books.nextId) ==> Stored(s', id) == None by {
        if KeysValid(keys, s.books.nextId) {
          LookupRemoveDistinct(rows, keys, s.books.nextId, i);
        }
      }
      s'
  }

  /** Deleting a book keeps the store valid: the cascade only removes loans,
      which cannot break a key or the one-running-loan rule. */
  lemma DeleteValid(s: Store, id: nat)
    requires Valid(s)
    ensures Valid(DeleteById(s, id))
  {
    var s' := DeleteById(s, id);
    match IndexOfKey(BookKeys(s.books.rows), id)
    case None =>
    case Some(i) =>
      RemoveRowKeepsBookRules(s.books.rows, s.books.nextId, i);
      assert s'.books.rows == s.books.rows[..i] + s.books.rows[i + 1..];
      SubseqKeepsLoanRules(s'.emprunts.rows, s.emprunts.rows, s.emprunts.nextId);
  }

  /** Removing one row keeps the book table's keys and ISBNs distinct. */
  lemma RemoveRowKeepsBookRules(rows: seq<Book>, next: nat, i: nat)
    requires i < |rows| && KeysValid(BookKeys(rows), next) && IsbnUnique(rows)
    ensures KeysValid(BookKeys(rows[..i] + rows[i + 1..]), next)
    ensures IsbnUnique(rows[..i] + rows[i + 1..])
  {
    var rows' := rows[..i] + rows[i + 1..];
    assert forall p :: 0 <= p < |rows'| ==> rows'[p] == rows[if p < i then p else p + 1];
  }
}
