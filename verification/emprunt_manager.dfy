/** `EmpruntManager`: the loan state machine. A book is borrowed by adding a
    running (`EN_COURS`) loan, which the manager refuses while one exists,
    and returned by ending (`TERMINE`) its first running loan, which it
    refuses while none exists. The current date is an argument. */
module EmpruntManager {
  import opened Wrappers
  import opened Errors
  import opened Emprunts
  import opened Books
  import opened Users
  import opened Seqs
  import opened Database
  import EmpruntRepository
  import BookRepository
  import UserRepository

  /** `getEmpruntEnCours(book)`: the first running loan of the book in table
      order, or empty when it has none. */
  function GetEmpruntEnCours(s: Store, book: Book): (r: Option<Emprunt>)
    ensures r.None? <==> !EmpruntRepository.HasRunningLoan(s, book.id)
    ensures r.Some? ==> exists i ::
      && 0 <= i < |s.emprunts.rows| && s.emprunts.rows[i] == r.value
      && Refers(r.value.book, book.id) && IsEnCours(r.value)
      && forall j :: 0 <= j < i ==> !(Refers(s.emprunts.rows[j].book, book.id) && IsEnCours(s.emprunts.rows[j]))
  {
    var running := EmpruntRepository.FindEmpruntsEnCoursByBook(s, book);
    if running == [] then None
    else
      assert running == Filter(s.emprunts.rows, EmpruntRepository.EnCoursOfBook(book.id));
      FilterHead(s.emprunts.rows, EmpruntRepository.EnCoursOfBook(book.id));
      Some(running[0])
  }

  /** A loaded book reports itself borrowed exactly when the manager finds a
      running loan for it. */
  lemma OnLoanIffEmpruntEnCours(s: Store, book: Book)
    ensures IsEmprunte(BookRepository.Load(s, book)) <==> GetEmpruntEnCours(s, book).Some?
  {
    BookRepository.LoadedOnLoanIffRunning(s, book);
  }

  /** `emprunterLivre(user, book)` on `today`. An unsaved user or book has no
      key, so the save fails on the non-null join column. */
  function EmprunterLivre(s: Store, user: Option<User>, book: Option<Book>, today: Date): (r: Result<(Store, Emprunt), Error>)
    ensures user == None ==> r == Failure(IllegalArgument(UserRequired))
    ensures user.Some? && book == None ==> r == Failure(IllegalArgument(BookRequired))
    ensures user.Some? && book.Some? && EmpruntRepository.HasRunningLoan(s, book.value.id) ==>
      r == Failure(IllegalArgument(AlreadyBorrowed))
    ensures (r.Failure? && r.error.Runtime?) <==>
      && user.Some? && book.Some? && !EmpruntRepository.HasRunningLoan(s, book.value.id)
      && (user.value.id == None || book.value.id == None)
    ensures r.Failure? && r.error.Runtime? ==> r.error == Runtime(NotNull)
    ensures (user.Some? && book.Some? && user.value.id.Some? && book.value.id.Some?
             && !EmpruntRepository.HasRunningLoan(s, book.value.id)) ==> r.Success?
    ensures r.Success? ==>
      user.Some? && book.Some? &&
      var (s', e) := r.value;
      && e == Emprunt(Some(s.emprunts.nextId), user.value.id, book.value.id, today, Some(EnCours))
      && s'.emprunts.rows == s.emprunts.rows + [e]
      && s'.emprunts.nextId == s.emprunts.nextId + 1
      && s'.books == s.books && s'.users == s.users
      && EmpruntRepository.FindEmpruntsEnCoursByBook(s', book.value) == [e]
  {
    if user == None then Failure(IllegalArgument(UserRequired))
    else if book == None then Failure(IllegalArgument(BookRequired))
    else if EmpruntRepository.FindEmpruntsEnCoursByBook(s, book.value) != [] then
      Failure(IllegalArgument(AlreadyBorrowed))
    else
      match EmpruntRepository.Save(s, NewEmprunt(user.value.id, book.value.id, today))
      case Failure(v) => Failure(Runtime(v))
      case Success(saved) =>
        var (s', e) := saved;
        var p := EmpruntRepository.EnCoursOfBook(book.value.id);
        assert EmpruntRepository.FindEmpruntsEnCoursByBook(s', book.value) == [e] by {
          FilterAppend(s.emprunts.rows, [e], p);
          FilterAll([e], p);
        }
        Success(saved)
  }

  /** Borrowing a stored book for a stored user keeps the store valid: the
      new loan is the book's only running one. */
  lemma EmprunterLivreValid(s: Store, user: User, book: Book, today: Date)
    requires Valid(s)
    requires user.id.Some? ==> UserRepository.FindById(s, user.id.value).Some?
    requires book.id.Some? ==> BookRepository.Stored(s, book.id.value).Some?
    ensures EmprunterLivre(s, Some(user), Some(book), today).Success? ==>
      Valid(EmprunterLivre(s, Some(user), Some(book), today).value.0)
  {
    var r := EmprunterLivre(s, Some(user), Some(book), today);
    if r.Success? {
      var e := NewEmprunt(user.id, book.id, today);
      EmpruntRepository.SaveConsistent(s, e);
      var (s', saved) := r.value;
      var rows := s.emprunts.rows;
      forall i, j | 0 <= i < j < |s'.emprunts.rows| && IsEnCours(s'.emprunts.rows[i]) && IsEnCours(s'.emprunts.rows[j])
        ensures s'.emprunts.rows[i].book != s'.emprunts.rows[j].book
      {
        if j == |rows| {
          assert s'.emprunts.rows[i] == rows[i];
        }
      }
    }
  }

  /** `rendreLivre(book)`: ends the first running loan of the book. On a
      consistent store the save cannot fail once a running loan is found.
      This is the intended behaviour, with the flush before the commit as
      `BookManager` does it; `RendreLivreAsWritten` is the code as written. */
  function RendreLivre(s: Store, book: Option<Book>): (r: Result<Store, Error>)
    ensures book == None ==> r == Failure(IllegalArgument(BookRequired))
    ensures book.Some? && !EmpruntRepository.HasRunningLoan(s, book.value.id) ==>
      r == Failure(IllegalArgument(NotBorrowed))
    ensures book.Some? && EmpruntRepository.HasRunningLoan(s, book.value.id) && Consistent(s) ==> r.Success?
    ensures r.Failure? && r.error.Runtime? ==> !Consistent(s)
    ensures r.Success? && Consistent(s) ==>
      && book.Some? && GetEmpruntEnCours(s, book.value).Some?
      && var e := GetEmpruntEnCours(s, book.value).value;
      && e.id.Some?
      && r.value.books == s.books && r.value.users == s.users
      && |r.value.emprunts.rows| == |s.emprunts.rows|
      && EmpruntRepository.FindById(r.value, e.id.value) == Some(Terminate(e))
      && (forall k :: k != e.id.value ==> EmpruntRepository.FindById(r.value, k) == EmpruntRepository.FindById(s, k))
      && var j := IndexOfKey(EmpruntKeys(s.emprunts.rows), e.id.value);
      && j.Some? && s.emprunts.rows[j.value] == e
      && r.value.emprunts == s.emprunts.(rows := s.emprunts.rows[j.value := Terminate(e)])
  {
    if book == None then Failure(IllegalArgument(BookRequired))
    else
      var running := EmpruntRepository.FindEmpruntsEnCoursByBook(s, book.value);
      if running == [] then Failure(IllegalArgument(NotBorrowed))
      else
        var e := running[0];
        assert Consistent(s) ==>
          && e.id.Some? && e.user.Some? && e.book.Some?
          && IndexOfKey(EmpruntKeys(s.emprunts.rows), e.id.value).Some?
          && s.emprunts.rows[IndexOfKey(EmpruntKeys(s.emprunts.rows), e.id.value).value] == e by {
          if Consistent(s) {
            var i :| 0 <= i < |s.emprunts.rows| && s.emprunts.rows[i] == e;
            assert EmpruntKeys(s.emprunts.rows)[i] == e.id;
            IndexOfDistinct(EmpruntKeys(s.emprunts.rows), s.emprunts.nextId, i);
          }
        }
        match EmpruntRepository.Save(s, Terminate(e))
        case Failure(v) => Failure(Runtime(v))
        case Success(saved) => Success(saved.0)
  }

  /** `rendreLivre(book)` as written: it commits and only then calls
      `em.flush()`. No transaction is active by then and the session does not
      allow writes outside one, so the flush throws; the catch finds nothing
      to roll back and rethrows a runtime error. The result pairs the store
      the database holds afterwards with what the call reports. */
  function RendreLivreAsWritten(s: Store, book: Option<Book>): (r: (Store, Result<(), Error>))
    ensures r.1.Failure?
    ensures RendreLivre(s, book).Failure? ==> r.0 == s && r.1.error == RendreLivre(s, book).error
    ensures RendreLivre(s, book).Success? ==>
      r.0 == RendreLivre(s, book).value && r.1.error == Runtime(NoTransaction)
  {
    match RendreLivre(s, book)
    case Failure(err) => (s, Failure(err))
    case Success(committed) => (committed, Failure(Runtime(NoTransaction)))
  }

  /** The discrepancy: on every borrowed book of a valid store the call as
      written reports a runtime error, yet the return is committed, so the
      store has changed and the book has no running loan any more. */
  lemma ReturnCommittedButReported(s: Store, book: Book)
    requires Valid(s)
    requires EmpruntRepository.HasRunningLoan(s, book.id)
    ensures RendreLivre(s, Some(book)).Success?
    ensures var (s', outcome) := RendreLivreAsWritten(s, Some(book));
      && outcome == Failure(Runtime(NoTransaction))
      && s' != s
      && !EmpruntRepository.HasRunningLoan(s', book.id)
  {
    RendreLivreValid(s, book);
  }

  /** Returning a borrowed book on a valid store succeeds, keeps the store
      valid, and leaves the book with no running loan: it reads as
      available again. */
  lemma RendreLivreValid(s: Store, book: Book)
    requires Valid(s)
    requires EmpruntRepository.HasRunningLoan(s, book.id)
    ensures RendreLivre(s, Some(book)).Success?
    ensures Valid(RendreLivre(s, Some(book)).value)
    ensures !EmpruntRepository.HasRunningLoan(RendreLivre(s, Some(book)).value, book.id)
    ensures !IsEmprunte(BookRepository.Load(RendreLivre(s, Some(book)).value, book))
  {
    var rows := s.emprunts.rows;
    var keys := EmpruntKeys(rows);
    var e := EmpruntRepository.FindEmpruntsEnCoursByBook(s, book)[0];
    var j :| 0 <= j < |rows| && rows[j] == e;
    assert keys[j] == e.id;
    IndexOfDistinct(keys, s.emprunts.nextId, j);
    var s' := RendreLivre(s, Some(book)).value;
    var rows' := rows[j := Terminate(e)];
    assert s'.emprunts.rows == rows';
    EmpruntRepository.SaveConsistent(s, Terminate(e));
    TerminateKeepsLoanRules(rows, j, book.id);
    BookRepository.LoadedOnLoanIffRunning(s', book);
  }

  /** No loan of `rows` is a running loan of the book with key `key`. */
  predicate NoRunningLoanOf(rows: seq<Emprunt>, key: Option<nat>) {
    forall k :: 0 <= k < |rows| ==> !(Refers(rows[k].book, key) && IsEnCours(rows[k]))
  }

  /** Ending a book's running loan in a table that keeps the
      one-running-loan rule keeps the rule and leaves the book with no
      running loan. */
  lemma TerminateKeepsLoanRules(rows: seq<Emprunt>, j: nat, key: Option<nat>)
    requires OneActiveLoanPerBook(rows)
    requires j < |rows| && Refers(rows[j].book, key) && IsEnCours(rows[j])
    ensures OneActiveLoanPerBook(rows[j := Terminate(rows[j])])
    ensures NoRunningLoanOf(rows[j := Terminate(rows[j])], key)
  {
    var rows' := rows[j := Terminate(rows[j])];
    forall p, q | 0 <= p < q < |rows'| && IsEnCours(rows'[p]) && IsEnCours(rows'[q])
      ensures rows'[p].book != rows'[q].book
    {
      assert p != j && q != j;
    }
    forall k | 0 <= k < |rows| ensures !(Refers(rows'[k].book, key) && IsEnCours(rows'[k])) {
      if k < j {
        assert !(IsEnCours(rows[k]) && IsEnCours(rows[j]) && rows[k].book == rows[j].book);
      } else if k > j {
        assert !(IsEnCours(rows[j]) && IsEnCours(rows[k]) && rows[j].book == rows[k].book);
      }
    }
  }

  /** `listerTousLesEmprunts()`: every loan, in table order. */
  function ListerTousLesEmprunts(s: Store): (r: seq<Emprunt>)
    ensures |r| == |s.emprunts.rows|
    ensures forall e :: e in r <==> e in s.emprunts.rows
  {
    EmpruntRepository.FindAll(s)
  }

  /** `listerEmpruntsParUtilisateur(userId)`: the user's loans, running and
      ended, in table order. */
  function ListerEmpruntsParUtilisateur(s: Store, userId: Option<nat>): (r: seq<Emprunt>)
    ensures forall i :: 0 <= i < |r| ==> r[i] in s.emprunts.rows && Refers(r[i].user, userId)
    ensures forall i :: 0 <= i < |s.emprunts.rows| && Refers(s.emprunts.rows[i].user, userId) ==>
      s.emprunts.rows[i] in r
    ensures IsSubseq(r, s.emprunts.rows)
  {
    EmpruntRepository.FindByUserId(s, userId)
  }

  /** `listerEmpruntsParLivre(bookId)`: the book's loans, running and ended,
      in table order. */
  function ListerEmpruntsParLivre(s: Store, bookId: Option<nat>): (r: seq<Emprunt>)
    ensures forall i :: 0 <= i < |r| ==> r[i] in s.emprunts.rows && Refers(r[i].book, bookId)
    ensures forall i :: 0 <= i < |s.emprunts.rows| && Refers(s.emprunts.rows[i].book, bookId) ==>
      s.emprunts.rows[i] in r
    ensures IsSubseq(r, s.emprunts.rows)
  {
    EmpruntRepository.FindByBookId(s, bookId)
  }

  /** A book that was just borrowed cannot be borrowed again, by anyone. */
  lemma BorrowTwiceRefused(s: Store, user: User, other: User, book: Book, d1: Date, d2: Date)
    requires EmprunterLivre(s, Some(user), Some(book), d1).Success?
    ensures var s' := EmprunterLivre(s, Some(user), Some(book), d1).value.0;
      EmprunterLivre(s', Some(other), Some(book), d2) == Failure(IllegalArgument(AlreadyBorrowed))
  {
    var (s', e) := EmprunterLivre(s, Some(user), Some(book), d1).value;
    assert s'.emprunts.rows[|s.emprunts.rows|] == e;
  }

  /** The full cycle on a valid store: borrow, return, and a second return
      is refused because nothing is running any more. */
  lemma BorrowReturnCycle(s: Store, user: User, book: Book, today: Date)
    requires Valid(s)
    requires user.id.Some? && UserRepository.FindById(s, user.id.value).Some?
    requires book.id.Some? && BookRepository.Stored(s, book.id.value).Some?
    requires !EmpruntRepository.HasRunningLoan(s, book.id)
    ensures EmprunterLivre(s, Some(user), Some(book), today).Success?
    ensures var s1 := EmprunterLivre(s, Some(user), Some(book), today).value.0;
      && IsEmprunte(BookRepository.Load(s1, book))
      && RendreLivre(s1, Some(book)).Success?
      && !IsEmprunte(BookRepository.Load(RendreLivre(s1, Some(book)).value, book))
      && RendreLivre(RendreLivre(s1, Some(book)).value, Some(book)) == Failure(IllegalArgument(NotBorrowed))
  {
    var (s1, e) := EmprunterLivre(s, Some(user), Some(book), today).value;
    EmprunterLivreValid(s, user, book, today);
    assert s1.emprunts.rows[|s.emprunts.rows|] == e;
    BookRepository.LoadedOnLoanIffRunning(s1, book);
    RendreLivreValid(s1, book);
  }
}
