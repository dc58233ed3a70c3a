/** `BookManager`: validation, the ISBN probe, partial update, delete, the
    availability lists and the text searches. Each write is one
    transaction: on success the new store is returned, on failure only the
    error, so the caller's store is left as it was (rollback). */
module BookManager {
  import opened Wrappers
  import opened Errors
  import opened Emprunts
  import opened Books
  import opened Seqs
  import opened Text
  import opened Database
  import BookRepository
  import EmpruntRepository

  /** A mandatory text argument is missing when null or blank after trim. */
  predicate Missing(text: Option<string>) {
    text == None || IsBlank(text.value)
  }

  /** An update argument asks for a change when non-null and non-empty;
      `isEmpty`, not blank, so `"  "` is a change. */
  predicate Supplied(text: Option<string>) {
    text.Some? && text.value != ""
  }

  /** `isbnExiste(isbn)`: a null or empty ISBN never exists; any other
      exists when a stored book holds it. */
  function IsbnExiste(s: Store, isbn: Option<string>): (r: bool)
    ensures !Supplied(isbn) ==> !r
    ensures Supplied(isbn) ==> (r <==> exists i :: 0 <= i < |s.books.rows| && s.books.rows[i].isbn == isbn)
  {
    isbn.Some? && isbn.value != "" && BookRepository.ExistsByIsbn(s, isbn)
  }

  /** `ajouterLivre(titre, auteur, date, isbn, categorie)`. */
  function AjouterLivre(s: Store, titre: Option<string>, auteur: Option<string>, date: Option<Date>,
                        isbn: Option<string>, categorie: Option<string>): (r: Result<(Store, Book), Error>)
    ensures Missing(titre) ==> r == Failure(IllegalArgument(TitleRequired))
    ensures !Missing(titre) && Missing(auteur) ==> r == Failure(IllegalArgument(AuthorRequired))
    ensures !Missing(titre) && !Missing(auteur) && IsbnExiste(s, isbn) ==> r == Failure(IllegalArgument(IsbnTaken))
    // the probe skips the empty ISBN, but the unique column does not
    ensures r.Failure? && r.error.Runtime? <==>
      !Missing(titre) && !Missing(auteur) && isbn == Some("") && BookRepository.ExistsByIsbn(s, isbn)
    ensures r.Failure? && r.error.Runtime? ==> r.error == Runtime(UniqueIsbn)
    ensures (!Missing(titre) && !Missing(auteur) && !IsbnExiste(s, isbn)
             && !(isbn == Some("") && BookRepository.ExistsByIsbn(s, isbn))) ==> r.Success?
    ensures r.Success? ==>
      var (s', b) := r.value;
      && b == Book(Some(s.books.nextId), titre.value, auteur.value, date, isbn, categorie, Some([]))
      && s'.books.rows == s.books.rows + [b]
      && s'.books.nextId == s.books.nextId + 1
      && s'.users == s.users && s'.emprunts == s.emprunts
  {
    if Missing(titre) then Failure(IllegalArgument(TitleRequired))
    else if Missing(auteur) then Failure(IllegalArgument(AuthorRequired))
    else if isbn.Some? && isbn.value != "" && BookRepository.ExistsByIsbn(s, isbn) then
      Failure(IllegalArgument(IsbnTaken))
    else
      match BookRepository.Save(s, NewBook(titre.value, auteur.value, date, isbn, categorie))
      case Failure(v) => Failure(Runtime(v))
      case Success(saved) => Success(saved)
  }

  /** `modifierLivre`'s overwrite rule for a text column. */
  function Updated(current: string, text: Option<string>): (r: string)
    ensures Supplied(text) ==> r == text.value
    ensures !Supplied(text) ==> r == current
  {
    if Supplied(text) then text.value else current
  }

  /** The same rule for a nullable text column. */
  function UpdatedOpt(current: Option<string>, text: Option<string>): (r: Option<string>)
    ensures Supplied(text) ==> r == text
    ensures !Supplied(text) ==> r == current
  {
    if Supplied(text) then text else current
  }

  /** The book `modifierLivre` writes: each supplied field overwrites, the
      date whenever non-null; key and loans are kept. */
  function Patch(b: Book, titre: Option<string>, auteur: Option<string>, date: Option<Date>,
                 isbn: Option<string>, categorie: Option<string>): (r: Book)
    ensures r.id == b.id && r.emprunts == b.emprunts
    ensures r.titre == Updated(b.titre, titre) && r.auteur == Updated(b.auteur, auteur)
    ensures r.datePublication == (if date.Some? then date else b.datePublication)
    ensures r.isbn == UpdatedOpt(b.isbn, isbn) && r.categorie == UpdatedOpt(b.categorie, categorie)
  {
    var b1 := if Supplied(titre) then SetTitre(b, titre.value) else b;
    var b2 := if Supplied(auteur) then SetAuteur(b1, auteur.value) else b1;
    var b3 := if date.Some? then SetDatePublication(b2, date) else b2;
    var b4 := if Supplied(isbn) then SetIsbn(b3, isbn) else b3;
    if Supplied(categorie) then SetCategorie(b4, categorie) else b4
  }

  /** `modifierLivre(id, ...)`. The ISBN is not probed again: an ISBN
      another book holds is only caught by the unique column at save. */
  function ModifierLivre(s: Store, id: nat, titre: Option<string>, auteur: Option<string>,
                         date: Option<Date>, isbn: Option<string>, categorie: Option<string>): (r: Result<(Store, Book), Error>)
    ensures BookRepository.FindById(s, id) == None <==> r == Failure(IllegalArgument(BookNotFound(id)))
    ensures r.Failure? ==> r.error == IllegalArgument(BookNotFound(id)) || r.error == Runtime(UniqueIsbn)
    ensures BookRepository.FindById(s, id).Some? ==>
      var cur := BookRepository.FindById(s, id).value;
      var i := IndexOfKey(BookKeys(s.books.rows), id).value;
      && (r.Failure? <==> BookRepository.IsbnHeld(s.books.rows, UpdatedOpt(cur.isbn, isbn), i))
      && (r.Success? ==>
            var (s', b) := r.value;
            && b == Patch(cur, titre, auteur, date, isbn, categorie)
            && BookRepository.Stored(s', id) == Some(b)
            && (forall k: nat :: k != id ==> BookRepository.Stored(s', k) == BookRepository.Stored(s, k))
            && |s'.books.rows| == |s.books.rows|
            && s'.books == s.books.(rows := s.books.rows[i := b])
            && s'.users == s.users && s'.emprunts == s.emprunts)
  {
    match BookRepository.FindById(s, id)
    case None => Failure(IllegalArgument(BookNotFound(id)))
    case Some(cur) =>
      match BookRepository.Save(s, Patch(cur, titre, auteur, date, isbn, categorie))
      case Failure(v) => Failure(Runtime(v))
      case Success(saved) => Success(saved)
  }

  /** `supprimerLivre(id)`: the book and, by cascade, its loans go. */
  function SupprimerLivre(s: Store, id: nat): (r: Result<Store, Error>)
    ensures BookRepository.FindById(s, id) == None <==> r == Failure(IllegalArgument(BookNotFound(id)))
    ensures BookRepository.FindById(s, id).Some? ==> r.Success?
    ensures r.Success? ==>
      && r.value == BookRepository.DeleteById(s, id)
      && var i := IndexOfKey(BookKeys(s.books.rows), id);
      && i.Some?
      && r.value.books == s.books.(rows := s.books.rows[..i.value] + s.books.rows[i.value + 1..])
      && r.value.emprunts.nextId == s.emprunts.nextId
      && (KeysValid(BookKeys(s.books.rows), s.books.nextId) ==> BookRepository.FindById(r.value, id) == None)
      && (forall k: nat :: k != id ==> BookRepository.Stored(r.value, k) == BookRepository.Stored(s, k))
      && EmpruntRepository.FindByBookId(r.value, Some(id)) == []
      && (forall i :: 0 <= i < |s.emprunts.rows| && !Refers(s.emprunts.rows[i].book, Some(id)) ==>
            s.emprunts.rows[i] in r.value.emprunts.rows)
      && IsSubseq(r.value.emprunts.rows, s.emprunts.rows)
      && r.value.users == s.users
  {
    match BookRepository.FindById(s, id)
    case None => Failure(IllegalArgument(BookNotFound(id)))
    case Some(_) =>
      Success(BookRepository.DeleteById(s, id))
  }

  /** `trouverParId(id)`. */
  function TrouverParId(s: Store, id: nat): (r: Option<Book>)
    ensures r.Some? <==> BookRepository.Stored(s, id).Some?
    ensures r.Some? ==>
      r.value.id == Some(id) && r.value.emprunts == Some(EmpruntRepository.FindByBookId(s, Some(id)))
    ensures r.Some? ==>
      r.value.(emprunts := BookRepository.Stored(s, id).value.emprunts) == BookRepository.Stored(s, id).value
  {
    BookRepository.FindById(s, id)
  }

  /** `listerTousLesLivres()`. */
  function ListerTousLesLivres(s: Store): (r: seq<Book>)
    ensures |r| == |s.books.rows|
    ensures forall k: nat :: BookRepository.FindById(s, k).Some? ==> BookRepository.FindById(s, k).value in r
  {
    BookRepository.FindAll(s)
  }

  function Available(): (p: Book -> bool)
    ensures forall b :: p(b) == !IsEmprunte(b)
  {
    (b: Book) => !IsEmprunte(b)
  }

  function OnLoan(): (p: Book -> bool)
    ensures forall b :: p(b) == IsEmprunte(b)
  {
    (b: Book) => IsEmprunte(b)
  }

  /** `listerLivresDisponibles()`: the books with no running loan, in
      `findAll` order. */
  function ListerLivresDisponibles(s: Store): (r: seq<Book>)
    ensures forall i :: 0 <= i < |r| ==> r[i] in BookRepository.FindAll(s) && !IsEmprunte(r[i])
    ensures forall b :: b in BookRepository.FindAll(s) && !IsEmprunte(b) ==> b in r
    ensures IsSubseq(r, BookRepository.FindAll(s))
  {
    var all := BookRepository.FindAll(s);
    assert forall b :: b in all && !IsEmprunte(b) ==> b in Filter(all, Available()) by {
      forall b | b in all && !IsEmprunte(b) ensures b in Filter(all, Available()) {
        var i :| 0 <= i < |all| && all[i] == b;
      }
    }
    Filter(all, Available())
  }

  /** `listerLivresEmpruntes()`: the books with a running loan, in `findAll`
      order. */
  function ListerLivresEmpruntes(s: Store): (r: seq<Book>)
    ensures forall i :: 0 <= i < |r| ==> r[i] in BookRepository.FindAll(s) && IsEmprunte(r[i])
    ensures forall b :: b in BookRepository.FindAll(s) && IsEmprunte(b) ==> b in r
    ensures IsSubseq(r, BookRepository.FindAll(s))
  {
    var all := BookRepository.FindAll(s);
    assert forall b :: b in all && IsEmprunte(b) ==> b in Filter(all, OnLoan()) by {
      forall b | b in all && IsEmprunte(b) ensures b in Filter(all, OnLoan()) {
        var i :| 0 <= i < |all| && all[i] == b;
      }
    }
    Filter(all, OnLoan())
  }

  /** The two lists split `findAll` between them: every book is in exactly
      one, each as often as in `findAll`. */
  lemma AvailabilityPartition(s: Store)
    ensures multiset(ListerLivresDisponibles(s)) + multiset(ListerLivresEmpruntes(s))
            == multiset(BookRepository.FindAll(s))
    ensures |ListerLivresDisponibles(s)| + |ListerLivresEmpruntes(s)| == |BookRepository.FindAll(s)|
  {
    var all := BookRepository.FindAll(s);
    FilterPartition(all, OnLoan());
    FilterSamePredicate(all, Not(OnLoan()), Available());
  }

  /** Filtering by two predicates that agree everywhere gives one result. */
  lemma {:induction false} FilterSamePredicate(s: seq<Book>, p: Book -> bool, q: Book -> bool)
    requires forall b :: p(b) == q(b)
    ensures Filter(s, p) == Filter(s, q)
  {
    if s != [] {
      FilterSamePredicate(s[1..], p, q);
    }
  }

  /** A stored book is listed as available exactly when no loan in the
      table references it in state `EN_COURS`. */
  lemma AvailableIffNoRunningLoan(s: Store, k: nat)
    requires BookRepository.FindById(s, k).Some?
    ensures BookRepository.FindById(s, k).value in ListerLivresDisponibles(s)
            <==> !EmpruntRepository.HasRunningLoan(s, Some(k))
  {
    var b := BookRepository.Stored(s, k).value;
    BookRepository.LoadedOnLoanIffRunning(s, b);
  }

  /** The text searches: a null or blank query is empty without reading the
      store; otherwise the books whose lower-cased field contains the
      lower-cased query, in `findAll` order. */
  predicate Matches(field: string, query: string) {
    Contains(ToLower(field), ToLower(query))
  }

  function TitreMatches(query: string): (p: Book -> bool)
    ensures forall b :: p(b) == Matches(b.titre, query)
  {
    (b: Book) => Matches(b.titre, query)
  }

  function AuteurMatches(query: string): (p: Book -> bool)
    ensures forall b :: p(b) == Matches(b.auteur, query)
  {
    (b: Book) => Matches(b.auteur, query)
  }

  function CategorieMatches(query: string): (p: Book -> bool)
    ensures forall b :: p(b) == (b.categorie.Some? && Matches(b.categorie.value, query))
  {
    (b: Book) => b.categorie.Some? && Matches(b.categorie.value, query)
  }

  function RechercherParTitre(s: Store, titre: Option<string>): (r: seq<Book>)
    ensures Missing(titre) ==> r == []
    ensures !Missing(titre) ==>
      && (forall i :: 0 <= i < |r| ==> r[i] in BookRepository.FindAll(s) && Matches(r[i].titre, titre.value))
      && (forall b :: b in BookRepository.FindAll(s) && Matches(b.titre, titre.value) ==> b in r)
      && IsSubseq(r, BookRepository.FindAll(s))
  {
    if Missing(titre) then []
    else
      var all := BookRepository.FindAll(s);
      var r := Filter(all, TitreMatches(titre.value));
      assert forall b :: b in all && Matches(b.titre, titre.value) ==> b in r by {
        forall b | b in all && Matches(b.titre, titre.value) ensures b in r {
          var i :| 0 <= i < |all| && all[i] == b;
        }
      }
      r
  }

  function RechercherParAuteur(s: Store, auteur: Option<string>): (r: seq<Book>)
    ensures Missing(auteur) ==> r == []
    ensures !Missing(auteur) ==>
      && (forall i :: 0 <= i < |r| ==> r[i] in BookRepository.FindAll(s) && Matches(r[i].auteur, auteur.value))
      && (forall b :: b in BookRepository.FindAll(s) && Matches(b.auteur, auteur.value) ==> b in r)
      && IsSubseq(r, BookRepository.FindAll(s))
  {
    if Missing(auteur) then []
    else
      var all := BookRepository.FindAll(s);
      var r := Filter(all, AuteurMatches(auteur.value));
      assert forall b :: b in all && Matches(b.auteur, auteur.value) ==> b in r by {
        forall b | b in all && Matches(b.auteur, auteur.value) ensures b in r {
          var i :| 0 <= i < |all| && all[i] == b;
        }
      }
      r
  }

  function RechercherParCategorie(s: Store, categorie: Option<string>): (r: seq<Book>)
    ensures Missing(categorie) ==> r == []
    ensures !Missing(categorie) ==>
      && (forall i :: 0 <= i < |r| ==>
            r[i] in BookRepository.FindAll(s) && r[i].categorie.Some? && Matches(r[i].categorie.value, categorie.value))
      && (forall b ::
            b in BookRepository.FindAll(s) && b.categorie.Some? && Matches(b.categorie.value, categorie.value) ==> b in r)
      && IsSubseq(r, BookRepository.FindAll(s))
  {
    if Missing(categorie) then []
    else
      var all := BookRepository.FindAll(s);
      var r := Filter(all, CategorieMatches(categorie.value));
      assert forall b :: b in all && b.categorie.Some? && Matches(b.categorie.value, categorie.value) ==> b in r by {
        forall b | b in all && b.categorie.Some? && Matches(b.categorie.value, categorie.value) ensures b in r {
          var i :| 0 <= i < |all| && all[i] == b;
        }
      }
      r
  }

  /** Adding a book keeps the store valid, and the new book reads back by
      its key with an empty loan list. */
  lemma AjouterLivreValid(s: Store, titre: Option<string>, auteur: Option<string>, date: Option<Date>,
                          isbn: Option<string>, categorie: Option<string>)
    requires Valid(s)
    ensures var r := AjouterLivre(s, titre, auteur, date, isbn, categorie);
      r.Success? ==> Valid(r.value.0) && TrouverParId(r.value.0, s.books.nextId) == Some(r.value.1)
  {
    var r := AjouterLivre(s, titre, auteur, date, isbn, categorie);
    if r.Success? {
      var b := NewBook(titre.value, auteur.value, date, isbn, categorie);
      var saved := BookRepository.Save(s, b);
      assert saved.Success? && r.value == saved.value;
      BookRepository.SaveConsistent(s, b);
      var (s', nb) := r.value;
      assert BookRepository.Stored(s', s.books.nextId) == Some(nb);
    }
  }

  /** Updating a book keeps the store valid: only the book's own columns
      change, and the unique column was checked by the save. */
  lemma ModifierLivreValid(s: Store, id: nat, titre: Option<string>, auteur: Option<string>,
                           date: Option<Date>, isbn: Option<string>, categorie: Option<string>)
    requires Valid(s)
    ensures var r := ModifierLivre(s, id, titre, auteur, date, isbn, categorie);
      r.Success? ==> Valid(r.value.0)
  {
    var r := ModifierLivre(s, id, titre, auteur, date, isbn, categorie);
    if r.Success? {
      var cur := BookRepository.FindById(s, id).value;
      BookRepository.SaveConsistent(s, Patch(cur, titre, auteur, date, isbn, categorie));
    }
  }

  /** Deleting a book keeps the store valid. */
  lemma SupprimerLivreValid(s: Store, id: nat)
    requires Valid(s)
    ensures SupprimerLivre(s, id).Success? ==> Valid(SupprimerLivre(s, id).value)
  {
    BookRepository.DeleteValid(s, id);
  }

  /** Adding a second book with an ISBN already held is refused by the
      manager's own check, before any write. */
  lemma DuplicateIsbnRefused(s: Store, t1: string, a1: string, t2: string, a2: string, isbn: string)
    requires isbn != ""
    requires !IsBlank(t1) && !IsBlank(a1) && !IsBlank(t2) && !IsBlank(a2)
    requires AjouterLivre(s, Some(t1), Some(a1), None, Some(isbn), None).Success?
    ensures var s' := AjouterLivre(s, Some(t1), Some(a1), None, Some(isbn), None).value.0;
      AjouterLivre(s', Some(t2), Some(a2), None, Some(isbn), None) == Failure(IllegalArgument(IsbnTaken))
  {
    var s' := AjouterLivre(s, Some(t1), Some(a1), None, Some(isbn), None).value.0;
    assert s'.books.rows[|s.books.rows|].isbn == Some(isbn);
  }

  /** The empty ISBN slips past the manager's check, so a second book with
      it reaches the unique column, which rejects it: the caller gets a
      runtime error and the store is unchanged. */
  lemma SecondEmptyIsbnRolledBack(s: Store, t1: string, a1: string, t2: string, a2: string)
    requires !IsBlank(t1) && !IsBlank(a1) && !IsBlank(t2) && !IsBlank(a2)
    requires AjouterLivre(s, Some(t1), Some(a1), None, Some(""), None).Success?
    ensures var s' := AjouterLivre(s, Some(t1), Some(a1), None, Some(""), None).value.0;
      AjouterLivre(s', Some(t2), Some(a2), None, Some(""), None) == Failure(Runtime(UniqueIsbn))
  {
    var s' := AjouterLivre(s, Some(t1), Some(a1), None, Some(""), None).value.0;
    assert s'.books.rows[|s.books.rows|].isbn == Some("");
  }
}
