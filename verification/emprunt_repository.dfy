/** `EmpruntRepository`: the loan table's save, lookups, filters and delete,
    plus the running-loan query the loan manager relies on. */
module EmpruntRepository {
  import opened Wrappers
  import opened Errors
  import opened Emprunts
  import opened Books
  import opened Users
  import opened Seqs
  import opened Database

  /** `findById(id)`: the stored loan with that key, or empty. */
  function FindById(s: Store, id: nat): (r: Option<Emprunt>)
    ensures r.Some? <==> exists i :: 0 <= i < |s.emprunts.rows| && s.emprunts.rows[i].id == Some(id)
    ensures r.Some? ==> r.value.id == Some(id) && r.value in s.emprunts.rows
  {
    Lookup(s.emprunts.rows, EmpruntKeys(s.emprunts.rows), id)
  }

  /** `findAll()`: every stored loan, in table order. */
  function FindAll(s: Store): (r: seq<Emprunt>)
    ensures |r| == |s.emprunts.rows|
    ensures forall k :: FindById(s, k).Some? ==> FindById(s, k).value in r
    ensures forall e :: e in r <==> e in s.emprunts.rows
  {
    s.emprunts.rows
  }

  function OfUser(key: Option<nat>): (p: Emprunt -> bool)
    ensures forall e :: p(e) == Refers(e.user, key)
  {
    (e: Emprunt) => Refers(e.user, key)
  }

  function OfBook(key: Option<nat>): (p: Emprunt -> bool)
    ensures forall e :: p(e) == Refers(e.book, key)
  {
    (e: Emprunt) => Refers(e.book, key)
  }

  function EnCoursOfBook(key: Option<nat>): (p: Emprunt -> bool)
    ensures forall e :: p(e) == (Refers(e.book, key) && IsEnCours(e))
  {
    (e: Emprunt) => Refers(e.book, key) && IsEnCours(e)
  }

  /** `findByUserId(userId)`: exactly the loans whose user key equals the
      argument, in table order; a null argument matches nothing. */
  function FindByUserId(s: Store, userId: Option<nat>): (r: seq<Emprunt>)
    ensures forall i :: 0 <= i < |r| ==> r[i] in s.emprunts.rows && Refers(r[i].user, userId)
    ensures forall i :: 0 <= i < |s.emprunts.rows| && Refers(s.emprunts.rows[i].user, userId) ==>
      s.emprunts.rows[i] in r
    ensures IsSubseq(r, s.emprunts.rows)
    ensures userId == None ==> r == []
  {
    Filter(s.emprunts.rows, OfUser(userId))
  }

  /** `findByBookId(bookId)`: exactly the loans whose book key equals the
      argument, in table order; a null argument matches nothing. */
  function FindByBookId(s: Store, bookId: Option<nat>): (r: seq<Emprunt>)
    ensures forall i :: 0 <= i < |r| ==> r[i] in s.emprunts.rows && Refers(r[i].book, bookId)
    ensures forall i :: 0 <= i < |s.emprunts.rows| && Refers(s.emprunts.rows[i].book, bookId) ==>
      s.emprunts.rows[i] in r
    ensures IsSubseq(r, s.emprunts.rows)
    ensures bookId == None ==> r == []
  {
    Filter(s.emprunts.rows, OfBook(bookId))
  }

  /** `findByUser(user)`: the comparison `e.user = :user` is made on the
      user's key, so this is the loans of `user.id`. */
  function FindByUser(s: Store, user: User): (r: seq<Emprunt>)
    ensures r == FindByUserId(s, user.id)
    ensures forall i :: 0 <= i < |r| ==> r[i] in s.emprunts.rows && Refers(r[i].user, user.id)
  {
    Filter(s.emprunts.rows, OfUser(user.id))
  }

  /** `findByBook(book)`: the loans referencing `book`, compared by key. */
  function FindByBook(s: Store, book: Book): (r: seq<Emprunt>)
    ensures r == FindByBookId(s, book.id)
    ensures forall i :: 0 <= i < |r| ==> r[i] in s.emprunts.rows && Refers(r[i].book, book.id)
  {
    Filter(s.emprunts.rows, OfBook(book.id))
  }

  /** Some loan in the table is a running loan of the book with key `key`. */
  predicate HasRunningLoan(s: Store, key: Option<nat>) {
    exists i :: 0 <= i < |s.emprunts.rows| && Refers(s.emprunts.rows[i].book, key) && IsEnCours(s.emprunts.rows[i])
  }

  /** The running-loan query `e.book = :book AND e.etat = EN_COURS`:
      exactly the book's loans in state `EN_COURS`, in table order. */
  function FindEmpruntsEnCoursByBook(s: Store, book: Book): (r: seq<Emprunt>)
    ensures forall i :: 0 <= i < |r| ==> r[i] in s.emprunts.rows && Refers(r[i].book, book.id) && IsEnCours(r[i])
    ensures forall i :: 0 <= i < |s.emprunts.rows| && Refers(s.emprunts.rows[i].book, book.id) && IsEnCours(s.emprunts.rows[i]) ==>
      s.emprunts.rows[i] in r
    ensures IsSubseq(r, s.emprunts.rows)
    ensures r == [] <==> !HasRunningLoan(s, book.id)
  {
    var r := Filter(s.emprunts.rows, EnCoursOfBook(book.id));
    assert r != [] ==> r[0] in s.emprunts.rows;
    r
  }

  /** Under the one-running-loan rule the query yields at most one loan. */
  lemma AtMostOneEnCours(s: Store, book: Book)
    requires OneActiveLoanPerBook(s.emprunts.rows)
    ensures |FindEmpruntsEnCoursByBook(s, book)| <= 1
  {
    var rows := s.emprunts.rows;
    var r := FindEmpruntsEnCoursByBook(s, book);
    if |r| > 1 {
      SubseqPair(r, rows, 0, 1);
    }
  }

  /** `save(emprunt)`: a loan without a key is inserted under the next key; a
      loan with a key replaces the stored loan with that key. The non-null
      join columns reject a loan with no user or book key, and a merge of a
      key that names no row fails. */
  function Save(s: Store, e: Emprunt): (r: Result<(Store, Emprunt), Violation>)
    ensures e.user == None || e.book == None ==> r == Failure(NotNull)
    ensures r.Failure? ==> r.error == NotNull || (r.error == StaleKey && e.id.Some? && FindById(s, e.id.value) == None)
    ensures e.user.Some? && e.book.Some? && (e.id == None || FindById(s, e.id.value).Some?) ==> r.Success?
    ensures r.Success? ==> r.value.0.books == s.books && r.value.0.users == s.users
    ensures r.Success? && e.id == None ==>
      var (s', saved) := r.value;
      && saved == e.(id := Some(s.emprunts.nextId))
      && s'.emprunts.rows == s.emprunts.rows + [saved]
      && s'.emprunts.nextId == s.emprunts.nextId + 1
      && (forall k :: k != s.emprunts.nextId ==> FindById(s', k) == FindById(s, k))
      && (KeysValid(EmpruntKeys(s.emprunts.rows), s.emprunts.nextId) ==> FindById(s', s.emprunts.nextId) == Some(saved))
    ensures r.Success? && e.id.Some? ==>
      var (s', saved) := r.value;
      && saved == e
      && |s'.emprunts.rows| == |s.emprunts.rows|
      && s'.emprunts.nextId == s.emprunts.nextId
      && FindById(s', e.id.value) == Some(e)
      && (forall k :: k != e.id.value ==> FindById(s', k) == FindById(s, k))
      && var i := IndexOfKey(EmpruntKeys(s.emprunts.rows), e.id.value);
      && i.Some? && s'.emprunts == s.emprunts.(rows := s.emprunts.rows[i.value := e])
  {
    var rows := s.emprunts.rows;
    if e.user == None || e.book == None then Failure(NotNull)
    else if e.id == None then
      var saved := e.(id := Some(s.emprunts.nextId));
      var s' := s.(emprunts := Table(rows + [saved], s.emprunts.nextId + 1));
      assert EmpruntKeys(rows + [saved]) == EmpruntKeys(rows) + [saved.id];
      assert forall k: nat :: FindById(s', k) == (if k == s.emprunts.nextId && FindById(s, k).None? then Some(saved) else FindById(s, k)) by {
        forall k: nat {
          LookupAppend(rows, EmpruntKeys(rows), saved, saved.id, k);
        }
      }
      Success((s', saved))
    else
      match IndexOfKey(EmpruntKeys(rows), e.id.value)
      case None => Failure(StaleKey)
      case Some(i) =>
        var s' := s.(emprunts := s.emprunts.(rows := rows[i := e]));
        assert EmpruntKeys(rows[i := e]) == EmpruntKeys(rows);
        assert forall k: nat :: FindById(s', k) == (if k == e.id.value then Some(e) else FindById(s, k)) by {
          forall k: nat {
            LookupReplace(rows, EmpruntKeys(rows), i, e, k);
          }
        }
        Success((s', e))
  }

  /** Saving a loan whose user and book keys were issued keeps the store
      consistent. */
  lemma SaveConsistent(s: Store, e: Emprunt)
    requires Consistent(s)
    requires e.user.Some? ==> e.user.value < s.users.nextId
    requires e.book.Some? ==> e.book.value < s.books.nextId
    requires Save(s, e).Success?
    ensures Consistent(Save(s, e).value.0)
  {
    var s' := Save(s, e).value.0;
    var rows := s.emprunts.rows;
    if e.id == None {
      assert EmpruntKeys(s'.emprunts.rows) == EmpruntKeys(rows) + [Some(s.emprunts.nextId)];
    } else {
      var i := IndexOfKey(EmpruntKeys(rows), e.id.value).value;
      assert s'.emprunts.rows == rows[i := e];
      assert EmpruntKeys(rows[i := e]) == EmpruntKeys(rows);
    }
  }

  /** `deleteById(id)`: removes the loan with that key, and does nothing when
      no loan has it. */
  function DeleteById(s: Store, id: nat): (s': Store)
    ensures FindById(s, id) == None ==> s' == s
    ensures s'.books == s.books && s'.users == s.users && s'.emprunts.nextId == s.emprunts.nextId
    ensures FindById(s, id).Some? ==> |s'.emprunts.rows| == |s.emprunts.rows| - 1
    ensures forall k :: k != id ==> FindById(s', k) == FindById(s, k)
    ensures KeysValid(EmpruntKeys(s.emprunts.rows), s.emprunts.nextId) ==> FindById(s', id) == None
    ensures var i := IndexOfKey(EmpruntKeys(s.emprunts.rows), id);
      i.Some? ==> s'.emprunts.rows == s.emprunts.rows[..i.value] + s.emprunts.rows[i.value + 1..]
  {
    var rows := s.emprunts.rows;
    match IndexOfKey(EmpruntKeys(rows), id)
    case None => s
    case Some(i) =>
      var rows' := rows[..i] + rows[i + 1..];
      var s' := s.(emprunts := s.emprunts.(rows := rows'));
      var keys := EmpruntKeys(rows);
      assert EmpruntKeys(rows') == keys[..i] + keys[i + 1..];
      assert forall k: nat :: k != id ==> FindById(s', k) == FindById(s, k) by {
        forall k: nat | k != id {
          LookupRemove(rows, keys, i, k);
        }
      }
      assert KeysValid(keys, s.emprunts.nextId) ==> FindById(s', id) == None by {
        if KeysValid(keys, s.emprunts.nextId) {
          LookupRemoveDistinct(rows, keys, s.emprunts.nextId, i);
        }
      }
      s'
  }

  /** Deleting a loan keeps the store valid. */
  lemma DeleteValid(s: Store, id: nat)
    requires Valid(s)
    ensures Valid(DeleteById(s, id))
  {
    var s' := DeleteById(s, id);
    match IndexOfKey(EmpruntKeys(s.emprunts.rows), id)
    case None =>
    case Some(i) =>
      var rows := s.emprunts.rows;
      var rows' := rows[..i] + rows[i + 1..];
      assert s'.emprunts.rows == rows';
      assert forall p :: 0 <= p < |rows'| ==> rows'[p] == rows[if p < i then p else p + 1];
      assert EmpruntKeys(rows') == EmpruntKeys(rows)[..i] + EmpruntKeys(rows)[i + 1..];
  }
}
