/** The book entity: its columns, its list of loans and the helpers that
    read and edit that list. */
module Books {
  import opened Wrappers
  import opened Errors
  import opened Emprunts

  /** `titre` and `auteur` are non-null columns; `isbn` is unique. The
      `emprunts` list is the inverse side of `Emprunt.book`: it may be null
      on an entity whose list was set to null. */
  datatype Book = Book(
    id: Option<nat>,
    titre: string,
    auteur: string,
    datePublication: Option<Date>,
    isbn: Option<string>,
    categorie: Option<string>,
    emprunts: Option<seq<Emprunt>>)

  /** `new Book(titre, auteur, date, isbn, categorie)`: an unsaved book with
      the five given fields and an empty loan list. */
  function NewBook(titre: string, auteur: string, date: Option<Date>,
                   isbn: Option<string>, categorie: Option<string>): (b: Book)
    ensures b.id == None && b.emprunts == Some([])
    ensures b.titre == titre && b.auteur == auteur && b.datePublication == date
    ensures b.isbn == isbn && b.categorie == categorie
  {
    Book(None, titre, auteur, date, isbn, categorie, Some([]))
  }

  /** Some loan of the list is running. */
  function AnyEnCours(loans: seq<Emprunt>): (r: bool)
    ensures r <==> exists i :: 0 <= i < |loans| && IsEnCours(loans[i])
  {
    if loans == [] then false
    else IsEnCours(loans[0]) || AnyEnCours(loans[1..])
  }

  /** `isEmprunte()`: the book is on loan when one of its loans is running. */
  function IsEmprunte(b: Book): (r: bool)
    ensures b.emprunts == None || b.emprunts == Some([]) ==> !r
    ensures r <==> b.emprunts.Some?
                   && exists i :: 0 <= i < |b.emprunts.value| && IsEnCours(b.emprunts.value[i])
  {
    if b.emprunts == None || b.emprunts == Some([]) then false
    else AnyEnCours(b.emprunts.value)
  }

  /** A new book is available. */
  lemma NewBookAvailable(titre: string, auteur: string, date: Option<Date>,
                         isbn: Option<string>, categorie: Option<string>)
    ensures !IsEmprunte(NewBook(titre, auteur, date, isbn, categorie))
  {
  }

  /** `addEmprunt(e)`: appends the loan to the list and points the loan at
      this book. The result carries both edited entities. */
  function AddEmprunt(b: Book, e: Emprunt): (r: Result<(Book, Emprunt), Error>)
    ensures b.emprunts == None <==> r == Failure(NullPointer)
    ensures r.Success? <==> b.emprunts.Some?
    ensures r.Success? ==>
      var (b', e') := r.value;
      && e' == e.(book := b.id)
      && b'.emprunts == Some(b.emprunts.value + [e'])
      && |b'.emprunts.value| == |b.emprunts.value| + 1
      && b' == b.(emprunts := b'.emprunts)
  {
    if b.emprunts == None then Failure(NullPointer)
    else
      var e' := e.(book := b.id);
      Success((b.(emprunts := Some(b.emprunts.value + [e'])), e'))
  }

  /** Position of the first element equal to `e`, or `|loans|`. */
  function FirstIndex(loans: seq<Emprunt>, e: Emprunt): (k: nat)
    ensures k <= |loans|
    ensures k < |loans| ==> loans[k] == e
    ensures forall j :: 0 <= j < k ==> loans[j] != e
  {
    if loans == [] then 0
    else if loans[0] == e then 0
    else 1 + FirstIndex(loans[1..], e)
  }

  /** `removeEmprunt(e)`: removes the first occurrence of the loan from the
      list (nothing when absent) and clears the loan's book reference. */
  function RemoveEmprunt(b: Book, e: Emprunt): (r: Result<(Book, Emprunt), Error>)
    ensures b.emprunts == None <==> r == Failure(NullPointer)
    ensures r.Success? <==> b.emprunts.Some?
    ensures r.Success? ==>
      var (b', e') := r.value;
      var loans := b.emprunts.value;
      && e' == e.(book := None)
      && b' == b.(emprunts := b'.emprunts)
      && b'.emprunts.Some?
      && (e in loans ==> |b'.emprunts.value| == |loans| - 1)
      && (e !in loans ==> b'.emprunts.value == loans)
      && (e in loans ==>
            b'.emprunts.value == loans[..FirstIndex(loans, e)] + loans[FirstIndex(loans, e) + 1..])
      && multiset(b'.emprunts.value) == multiset(loans) - multiset{e}
  {
    if b.emprunts == None then Failure(NullPointer)
    else
      var loans := b.emprunts.value;
      var k := FirstIndex(loans, e);
      var rest := if k < |loans| then loans[..k] + loans[k + 1..] else loans;
      assert k < |loans| ==> loans == loans[..k] + [e] + loans[k + 1..];
      assert k == |loans| ==> e !in loans;
      Success((b.(emprunts := Some(rest)), e.(book := None)))
  }

  /** Adding a loan puts the book on loan exactly when it already was or the
      added loan is running; a running loan added to an available book
      makes it on loan. */
  lemma AddEmpruntOnLoan(b: Book, e: Emprunt)
    requires AddEmprunt(b, e).Success?
    ensures IsEmprunte(AddEmprunt(b, e).value.0) <==> IsEmprunte(b) || IsEnCours(e)
  {
    var b' := AddEmprunt(b, e).value.0;
    var loans := b.emprunts.value;
    var loans' := b'.emprunts.value;
    assert loans'[|loans|] == e.(book := b.id);
    if IsEmprunte(b') {
      var i :| 0 <= i < |loans'| && IsEnCours(loans'[i]);
      if i < |loans| {
        assert loans'[i] == loans[i];
      }
    }
    if IsEmprunte(b) {
      var i :| 0 <= i < |loans| && IsEnCours(loans[i]);
      assert loans'[i] == loans[i];
    }
  }

  /** Removing a loan never puts an available book on loan. */
  lemma RemoveEmpruntKeepsAvailable(b: Book, e: Emprunt)
    requires RemoveEmprunt(b, e).Success?
    ensures IsEmprunte(RemoveEmprunt(b, e).value.0) ==> IsEmprunte(b)
  {
    var loans := b.emprunts.value;
    var loans' := RemoveEmprunt(b, e).value.0.emprunts.value;
    if IsEmprunte(RemoveEmprunt(b, e).value.0) {
      var i :| 0 <= i < |loans'| && IsEnCours(loans'[i]);
      assert loans'[i] in multiset(loans');
      assert loans'[i] in multiset(loans);
      var j :| 0 <= j < |loans| && loans[j] == loans'[i];
    }
  }

  // The setters: each one writes its own field and leaves every other
  // field, the key and the loan list as they were.

  function SetTitre(b: Book, titre: string): (r: Book)
    ensures r.titre == titre
    ensures r.(titre := b.titre) == b
  {
    b.(titre := titre)
  }

  function SetAuteur(b: Book, auteur: string): (r: Book)
    ensures r.auteur == auteur
    ensures r.(auteur := b.auteur) == b
  {
    b.(auteur := auteur)
  }

  function SetDatePublication(b: Book, date: Option<Date>): (r: Book)
    ensures r.datePublication == date
    ensures r.(datePublication := b.datePublication) == b
  {
    b.(datePublication := date)
  }

  function SetIsbn(b: Book, isbn: Option<string>): (r: Book)
    ensures r.isbn == isbn
    ensures r.(isbn := b.isbn) == b
  {
    b.(isbn := isbn)
  }

  function SetCategorie(b: Book, categorie: Option<string>): (r: Book)
    ensures r.categorie == categorie
    ensures r.(categorie := b.categorie) == b
  {
    b.(categorie := categorie)
  }

  function SetEmprunts(b: Book, emprunts: Option<seq<Emprunt>>): (r: Book)
    ensures r.emprunts == emprunts
    ensures r.(emprunts := b.emprunts) == b
  {
    b.(emprunts := emprunts)
  }

  /** Setting the title then reading any other field sees the old value, and
      setting it back restores the book: the setter touches one field only. */
  lemma SetTitreFrame(b: Book, titre: string)
    ensures var r := SetTitre(b, titre);
      && r.id == b.id && r.auteur == b.auteur && r.datePublication == b.datePublication
      && r.isbn == b.isbn && r.categorie == b.categorie && r.emprunts == b.emprunts
      && IsEmprunte(r) == IsEmprunte(b)
      && SetTitre(r, b.titre) == b
  {
  }
}
