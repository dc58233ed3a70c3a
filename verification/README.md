# Library loans — a Dafny model

A model of the core of a small library application: its books, users and
loans (`Emprunt`), stored through three repositories in a relational
database and changed by two managers. `BookManager` validates, adds, updates,
deletes, lists and searches books. `EmpruntManager` runs the loan state
machine. A book is borrowed by adding a running (`EN_COURS`) loan, refused
while one exists. It is returned by ending (`TERMINE`) its first running
loan, refused while there is none.

The database is a value, `Database.Store`: three tables of rows in insertion
order, each with its next key. Every repository and manager operation is a
pure function from a store to a result. An operation that writes returns
either the new store or an error value. An error returns no store, which is
how the model states that a failed transaction is rolled back. The schema's
rules form `Database.Consistent`:

- every key is present, issued and distinct;
- no two books share an ISBN (the `unique` ISBN column);
- no two users share an email (the `unique` email column);
- every loan has a user key and a book key (the non-null join columns).

`Database.Valid` adds the rule the managers keep: at most one running loan
per book. Each manager operation is proved to preserve `Valid`.

Files, in dependency order:

- `wrappers.dfy`: `Option` and `Result`.
- `text.dfy`: `trim`, blank, ASCII `toLowerCase` and `contains`.
- `seqs.dfy`: order-preserving `Filter` (the shape of every stream filter and `WHERE` query) and subsequences.
- `errors.dfy`: the exceptions.
- `emprunt.dfy`, `user.dfy`, `book.dfy`: the entities.
- `database.dfy`: the store, key lookups and the invariants.
- `emprunt_repository.dfy`, `book_repository.dfy`, `user_repository.dfy`: the repositories.
- `book_manager.dfy`, `emprunt_manager.dfy`: the managers.

Modelling choices:

- A reference from a loan to its user or book is the referenced entity's key, `Option<nat>`. `None` stands for a null reference or an entity that was never saved.
- A JPQL comparison `e.book = :book` follows SQL null semantics: a null on either side matches nothing (`Database.Refers`).
- `Book.emprunts` is the inverse side of `Emprunt.book`. Every read rebuilds it from the loans that reference the book, in table order (`BookRepository.Load`). A book save does not write it: the cascade to the listed loans is outside the model (see below).
- A loan's state is `Option<Etat>`. A new loan is `EN_COURS`, and a null state does not count as running.
- The current date of `emprunterLivre` is a parameter.

## Model

| member | source | states |
|---|---|---|
| Emprunts.NewEmprunt | src/main/java/fr/appsketch/Emprunt/Emprunt.java:30-34 | a new loan has no key, holds the given user, book and date, and starts out running |
| Emprunts.Terminate | src/main/java/fr/appsketch/Emprunt/EmpruntManager.java:76-77 | ending a loan makes it not running (`TERMINE`) and keeps its key, user, book and date |
| Books.NewBook | src/main/java/fr/appsketch/Book/Book.java:39-45 | the constructor keeps the five given fields, has no key and an empty loan list |
| Books.IsEmprunte | src/main/java/fr/appsketch/Book/Book.java:105-112 | a book is borrowed iff its loan list is non-null and holds a loan whose state is `EN_COURS`; a null or empty list means available |
| Books.NewBookAvailable | src/main/java/fr/appsketch/Book/Book.java:33 | a freshly constructed book is not borrowed |
| Books.AddEmprunt | src/main/java/fr/appsketch/Book/Book.java:115-118 | fails with a null-pointer error exactly on a null list and succeeds otherwise; the list gains the loan at its end, and the loan now points at the book |
| Books.AddEmpruntOnLoan | src/main/java/fr/appsketch/Book/Book.java:105-118 | after adding a loan the book is borrowed iff it was already or the added loan is running |
| Books.RemoveEmprunt | src/main/java/fr/appsketch/Book/Book.java:121-124 | fails with a null-pointer error exactly on a null list and succeeds otherwise; removes the first occurrence of the loan and keeps the other loans in order (the list is unchanged when the loan is absent), and clears the loan's book |
| Books.RemoveEmpruntKeepsAvailable | src/main/java/fr/appsketch/Book/Book.java:105-124 | removing a loan never makes an available book borrowed |
| Books.SetTitre | src/main/java/fr/appsketch/Book/Book.java:60-62 | sets the title and leaves every other field as it was |
| Books.SetAuteur | src/main/java/fr/appsketch/Book/Book.java:68-70 | sets the author and leaves every other field as it was |
| Books.SetDatePublication | src/main/java/fr/appsketch/Book/Book.java:76-78 | sets the publication date and leaves every other field as it was |
| Books.SetIsbn | src/main/java/fr/appsketch/Book/Book.java:84-86 | sets the ISBN and leaves every other field as it was |
| Books.SetCategorie | src/main/java/fr/appsketch/Book/Book.java:92-94 | sets the category and leaves every other field as it was |
| Books.SetEmprunts | src/main/java/fr/appsketch/Book/Book.java:100-102 | replaces the loan list and leaves every other field as it was |
| Books.SetTitreFrame | src/main/java/fr/appsketch/Book/Book.java:60-62 | a title change touches no other field, cannot change availability, and setting the old title back restores the book |
| Text.BlankIffAllTrimmable | src/main/java/fr/appsketch/Book/BookManager.java:37 | `trim().isEmpty()` holds iff every character is at most a space |
| Text.Contains | src/main/java/fr/appsketch/Book/BookManager.java:174 | `contains` holds iff the pattern occurs at some position of the text |
| Text.ToLowerIdempotent | src/main/java/fr/appsketch/Book/BookManager.java:174 | lower-casing leaves no upper-case ASCII letter, so doing it twice changes nothing |
| Database.EmptyValid | src/main/java/fr/appsketch/Book/Book.java:26-33 | the empty database satisfies the schema rules and the one-running-loan rule |
| Database.SubseqKeepsLoanRules | src/main/java/fr/appsketch/Book/Book.java:32 | removing loans (as the cascade does) keeps loan keys valid and the one-running-loan rule |
| EmpruntRepository.FindById | src/main/java/fr/appsketch/Emprunt/EmpruntRepository.java:32-35 | finds a loan iff some row has the key, and the loan found has that key |
| EmpruntRepository.FindAll | src/main/java/fr/appsketch/Emprunt/EmpruntRepository.java:37-40 | returns exactly the stored loans, each found by key among them |
| EmpruntRepository.FindByUserId | src/main/java/fr/appsketch/Emprunt/EmpruntRepository.java:56-61 | exactly the loans of that user key, in table order; a null key finds none |
| EmpruntRepository.FindByBookId | src/main/java/fr/appsketch/Emprunt/EmpruntRepository.java:63-68 | exactly the loans of that book key, in table order; a null key finds none |
| EmpruntRepository.FindByUser | src/main/java/fr/appsketch/Emprunt/EmpruntRepository.java:42-47 | comparing by entity is comparing by the user's key |
| EmpruntRepository.FindByBook | src/main/java/fr/appsketch/Emprunt/EmpruntRepository.java:49-54 | comparing by entity is comparing by the book's key |
| EmpruntRepository.FindEmpruntsEnCoursByBook | src/test/java/fr/appsketch/Emprunt/EmpruntRepositoryTest.java:243-265 | exactly the book's running loans, in table order; empty iff the book has no running loan |
| EmpruntRepository.AtMostOneEnCours | src/main/java/fr/appsketch/Emprunt/EmpruntManager.java:39-42 | under the one-running-loan rule the running-loan query yields at most one loan |
| EmpruntRepository.Save | src/main/java/fr/appsketch/Emprunt/EmpruntRepository.java:23-30 | a loan missing its user or book key is rejected; a keyless loan is appended under the next key; a keyed loan replaces its row in place, leaving the row order and the next key as they were; every other key reads as before |
| EmpruntRepository.SaveConsistent | src/main/java/fr/appsketch/Emprunt/EmpruntRepository.java:23-30 | saving a loan whose references were issued keeps the schema rules |
| EmpruntRepository.DeleteById | src/main/java/fr/appsketch/Emprunt/EmpruntRepository.java:70-72 | removes the loan with the key, is a no-op when there is none, and keeps every other row in order |
| EmpruntRepository.DeleteValid | src/main/java/fr/appsketch/Emprunt/EmpruntRepository.java:70-72 | deleting a loan keeps the store valid |
| BookRepository.Stored | src/main/java/fr/appsketch/Book/BookRepository.java:30-33 | the raw row with that key exists iff some row holds the key |
| BookRepository.Load | src/main/java/fr/appsketch/Book/Book.java:32-33 | a read book has its stored columns and, as its loan list, exactly the loans referencing its key |
| BookRepository.LoadedOnLoanIffRunning | src/main/java/fr/appsketch/Book/Book.java:105-112 | a read book reports itself borrowed iff the loan table holds a running loan of it |
| BookRepository.FindById | src/main/java/fr/appsketch/Book/BookRepository.java:30-33 | finds a book iff some row holds the key; the book found is that row with its loans attached |
| BookRepository.FindAll | src/main/java/fr/appsketch/Book/BookRepository.java:35-38 | every row, in order, each with its loans; every book found by key is among them |
| BookRepository.FirstWithIsbn | src/main/java/fr/appsketch/Book/BookRepository.java:40-45 | the first row holding the ISBN, or none iff no row holds it |
| BookRepository.FindByIsbn | src/main/java/fr/appsketch/Book/BookRepository.java:40-45 | finds a book iff some row holds the (non-null) ISBN, and it is the first such row |
| BookRepository.ExistsByIsbn | src/main/java/fr/appsketch/Book/BookRepository.java:47-52 | the count is positive iff some row holds the (non-null) ISBN |
| BookRepository.ExistsIffFound | src/main/java/fr/appsketch/Book/BookRepository.java:40-52 | the existence probe and the lookup agree |
| BookRepository.Save | src/main/java/fr/appsketch/Book/BookRepository.java:20-28 | an insert fails iff another row holds the ISBN, otherwise appends under the next key; an update fails iff another row holds the ISBN, otherwise replaces the row in place, leaving the row order and the next key as they were; other keys read as before |
| BookRepository.SaveConsistent | src/main/java/fr/appsketch/Book/Book.java:26-27 | a successful save keeps keys distinct and ISBNs unique |
| BookRepository.DeleteById | src/main/java/fr/appsketch/Book/BookRepository.java:54-56 | removes the book, keeping the other books in order, and, by the cascade, exactly the loans that reference it, keeping the others in order; both next keys are kept; a no-op for an unknown key |
| BookRepository.DeleteValid | src/main/java/fr/appsketch/Book/Book.java:32 | deleting a book with its loans keeps the store valid |
| BookRepository.RemoveRowKeepsBookRules | src/main/java/fr/appsketch/Book/BookRepository.java:54-56 | removing a row keeps book keys distinct and ISBNs unique |
| UserRepository.FindById | src/main/java/fr/appsketch/User/UserRepository.java:25-28 | finds a user iff some row holds the key |
| UserRepository.FindAll | src/main/java/fr/appsketch/User/UserRepository.java:30-33 | one entry per stored user, and exactly the stored users |
| UserRepository.FirstWithEmail | src/main/java/fr/appsketch/User/UserRepository.java:35-40 | the first row holding the email, or none iff no row holds it |
| UserRepository.FindByEmail | src/main/java/fr/appsketch/User/UserRepository.java:35-40 | finds a user iff some row holds the email, and it is the first such row |
| UserRepository.ExistsByEmail | src/main/java/fr/appsketch/User/UserRepository.java:42-47 | the count is positive iff some row holds the email |
| UserRepository.ExistsIffFound | src/main/java/fr/appsketch/User/UserRepository.java:35-47 | the existence probe and the lookup agree |
| UserRepository.Save | src/main/java/fr/appsketch/User/UserRepository.java:15-23 | an insert or update fails iff another row holds the email; otherwise appends under the next key, or replaces the row in place, leaving the row order and the next key as they were; other keys read as before |
| UserRepository.SaveConsistent | src/main/java/fr/appsketch/User/User.java:22-23 | a successful save keeps user keys distinct and emails unique |
| UserRepository.DeleteById | src/main/java/fr/appsketch/User/UserRepository.java:49-52 | removes the user with the key and keeps every other row in order; a no-op for an unknown key |
| UserRepository.DeleteValid | src/main/java/fr/appsketch/User/UserRepository.java:49-52 | deleting a user keeps the store valid |
| BookManager.IsbnExiste | src/main/java/fr/appsketch/Book/BookManager.java:206-208 | false for a null or empty ISBN; otherwise true iff a stored book holds it |
| BookManager.AjouterLivre | src/main/java/fr/appsketch/Book/BookManager.java:35-65 | refuses a null or blank title, then author, then a non-empty ISBN already held; a runtime error (unique ISBN, rolled back) happens iff the ISBN is the empty string and already held; every other input succeeds, appending the new book under the next key and advancing that key by one |
| BookManager.AjouterLivreValid | src/main/java/fr/appsketch/Book/BookManager.java:49-58 | adding keeps the store valid and the new book reads back by its key, with no loans |
| BookManager.Updated | src/main/java/fr/appsketch/Book/BookManager.java:78-80 | a text argument overwrites iff non-null and non-empty (a blank one does overwrite) |
| BookManager.UpdatedOpt | src/main/java/fr/appsketch/Book/BookManager.java:87-92 | the same overwrite rule for a nullable column |
| BookManager.Patch | src/main/java/fr/appsketch/Book/BookManager.java:78-92 | each field follows the overwrite rule, the date changes iff non-null, and the key and loans are kept |
| BookManager.ModifierLivre | src/main/java/fr/appsketch/Book/BookManager.java:70-108 | not-found iff no book has the key; otherwise fails (unique ISBN, rolled back) iff another book holds the resulting ISBN, and on success the patched book replaces that book's row in place, with the row order and the next key kept |
| BookManager.ModifierLivreValid | src/main/java/fr/appsketch/Book/BookManager.java:94-101 | updating keeps the store valid |
| BookManager.SupprimerLivre | src/main/java/fr/appsketch/Book/BookManager.java:113-132 | not-found iff no book has the key, success otherwise, with the result of `deleteById`; the book's row is removed and the other books keep their order, both next keys are kept, the book has no loans left, every loan of another book survives, and no loan is added or reordered |
| BookManager.SupprimerLivreValid | src/main/java/fr/appsketch/Book/BookManager.java:119-125 | deleting keeps the store valid |
| BookManager.TrouverParId | src/main/java/fr/appsketch/Book/BookManager.java:137-139 | finds a book iff it is stored; it is the stored row with exactly its loans attached |
| BookManager.ListerTousLesLivres | src/main/java/fr/appsketch/Book/BookManager.java:144-146 | one entry per stored book; every book found by key is listed |
| BookManager.ListerLivresDisponibles | src/main/java/fr/appsketch/Book/BookManager.java:151-155 | exactly the listed books that are not borrowed, in list order |
| BookManager.ListerLivresEmpruntes | src/main/java/fr/appsketch/Book/BookManager.java:160-164 | exactly the listed books that are borrowed, in list order |
| BookManager.AvailabilityPartition | src/main/java/fr/appsketch/Book/BookManager.java:151-164 | the two lists split the full list: together they hold each book exactly as often as it |
| BookManager.AvailableIffNoRunningLoan | src/main/java/fr/appsketch/Book/BookManager.java:151-155 | a stored book is listed as available iff no loan of it is running |
| BookManager.RechercherParTitre | src/main/java/fr/appsketch/Book/BookManager.java:169-176 | a null or blank query gives nothing; otherwise exactly the books whose lower-cased title contains the lower-cased query, in list order |
| BookManager.RechercherParAuteur | src/main/java/fr/appsketch/Book/BookManager.java:181-188 | the same for the author |
| BookManager.RechercherParCategorie | src/main/java/fr/appsketch/Book/BookManager.java:193-201 | the same for the category, skipping books without one |
| BookManager.DuplicateIsbnRefused | src/main/java/fr/appsketch/Book/BookManager.java:44-47 | a second book with a held non-empty ISBN is refused before any write |
| BookManager.SecondEmptyIsbnRolledBack | src/main/java/fr/appsketch/Book/BookManager.java:45-63 | a second book with the empty ISBN passes the check, hits the unique column and is rolled back |
| EmpruntManager.GetEmpruntEnCours | src/main/java/fr/appsketch/Emprunt/EmpruntManager.java:118-121 | empty iff the book has no running loan; otherwise its first running loan in table order |
| EmpruntManager.OnLoanIffEmpruntEnCours | src/main/java/fr/appsketch/Emprunt/EmpruntManager.java:118-121 | a read book is borrowed iff the manager finds a running loan for it |
| EmpruntManager.EmprunterLivre | src/main/java/fr/appsketch/Emprunt/EmpruntManager.java:29-58 | refuses a null user, then a null book, then a book with a running loan; a runtime error (non-null column, rolled back) happens iff the user or book has no key, and every other input succeeds, appending one running loan dated today, which becomes the book's only running loan |
| EmpruntManager.EmprunterLivreValid | src/main/java/fr/appsketch/Emprunt/EmpruntManager.java:38-51 | borrowing a stored book for a stored user keeps the store valid |
| EmpruntManager.RendreLivre | src/main/java/fr/appsketch/Emprunt/EmpruntManager.java:63-92 | the intended behaviour (see Findings): refuses a null book, then a book with no running loan; on a consistent store it then succeeds, and exactly the first running loan becomes `TERMINE` in its own row, with the row order and the next key kept |
| EmpruntManager.RendreLivreAsWritten | src/main/java/fr/appsketch/Emprunt/EmpruntManager.java:79-91 | as written, the call never reports success: a refusal leaves the store as it was, and a return that got through commits and then reports a runtime error from the flush |
| EmpruntManager.ReturnCommittedButReported | src/main/java/fr/appsketch/Emprunt/EmpruntManager.java:82-90 | on every borrowed book of a valid store, the code as written reports a runtime error although the store has changed and the book has no running loan any more |
| EmpruntManager.RendreLivreValid | src/main/java/fr/appsketch/Emprunt/EmpruntManager.java:68-83 | returning a borrowed book keeps the store valid and leaves the book with no running loan, so it reads as available |
| EmpruntManager.TerminateKeepsLoanRules | src/main/java/fr/appsketch/Emprunt/EmpruntManager.java:76-77 | ending a running loan keeps the one-running-loan rule and leaves its book with none |
| EmpruntManager.ListerTousLesEmprunts | src/main/java/fr/appsketch/Emprunt/EmpruntManager.java:97-99 | exactly the stored loans |
| EmpruntManager.ListerEmpruntsParUtilisateur | src/main/java/fr/appsketch/Emprunt/EmpruntManager.java:104-106 | exactly the user's loans, running and ended, in table order |
| EmpruntManager.ListerEmpruntsParLivre | src/main/java/fr/appsketch/Emprunt/EmpruntManager.java:111-113 | exactly the book's loans, running and ended, in table order |
| EmpruntManager.BorrowTwiceRefused | src/main/java/fr/appsketch/Emprunt/EmpruntManager.java:39-42 | right after a successful borrow, anyone's borrow of the same book is refused |
| EmpruntManager.BorrowReturnCycle | src/main/java/fr/appsketch/Emprunt/EmpruntManager.java:29-92 | on a valid store: borrow succeeds and the book reads as borrowed, return succeeds and it reads as available, a second return is refused |

## Left out

- Console I/O (`BookDisplay`, `UserDisplay`, `MyLibrary`), the JSON export and import of `BookManager`, `UserManager`, `HibernateManager` and the SQLite bootstrap script are not part of this model.
- `User.livresEmpruntes` and its helpers are not part of this model: loans are read only through the loan table.
- The entity manager's first-level cache, flush and clear are not modelled, except for the flush after the commit in `rendreLivre` (see Findings). A transaction is atomic: success returns the new store, failure returns an error and no store.
- The clock: the loan date is a parameter instead of `LocalDate.now()`.
- Case folding covers ASCII letters only. Java's `toLowerCase` is locale- and Unicode-aware.
- `trim` removes characters up to U+0020, as Java does. `isEmpty` is the empty string.
- Keys are never reused. SQLite may reuse the largest key after a delete.
- Foreign keys are not enforced, as in SQLite's default. A deleted user's loans stay and keep its key.
- The `Emprunt.java` in the repository has no `etat` field and the repository has no `findEmpruntsEnCoursByBook`. Both are used by the manager, `Book.isEmprunte` and the tests. The model follows that usage: a state of `EN_COURS` or `TERMINE`, `EN_COURS` for a new loan, and a query that returns the book's running loans.
- `Book.setId` and the getters are not modelled. Keys are assigned by a save only.
- Books.RemoveEmprunt: removes the first structurally equal loan. `List.remove` uses `equals`, which `Emprunt` inherits from `Object` (identity).
- EmpruntManager.RendreLivre: the failure path after the save (a runtime error) is stated only as "cannot happen on a consistent store". The model does not say which constraint a corrupt store would break.
- EmpruntManager.GetEmpruntEnCours: takes a non-null book. Some tests expect an empty result for a null book, and a book without a key gives that.
- A null title or author stored directly in a book is not representable. Those columns are non-null, and the managers check for null first.
- Tests that disagree with the source are not followed. For example, one expects a transaction rollback when a borrow is refused, while the source refuses before opening a transaction.
- `BookRepository.save` and the other saves on a key that no row holds fail with a stale-key error. A merge would insert instead. The managers never reach this case.
- BookRepository.Save: the cascade and orphan removal of the loan collection (`cascade = ALL, orphanRemoval = true`) are not modelled for a save. In the source, `persist` also persists the listed loans, and `merge` merges them and deletes stored loans missing from the list. The model's save leaves the loan table as it was. The managers never reach the difference: `ajouterLivre` saves a new book with an empty list and `modifierLivre` saves a book it has just read.
- A null key is not modelled: `FindById`, `DeleteById`, `ModifierLivre`, `SupprimerLivre` and `TrouverParId` take a `nat`. In the source a null id makes `em.find` throw an `IllegalArgumentException` before any not-found check.
- The user columns `nom`, `prenom`, `email` and `motDePasse` are non-null strings in the model, so the NOT NULL rejection of a user save is not modelled. Only the unique email is.
- Books.AddEmprunt: a null loan argument is not representable. In the source, `addEmprunt(null)` appends null to the list and then throws a `NullPointerException` at `emprunt.setBook(this)`, leaving the list changed.
- Books.RemoveEmprunt: a null loan argument is not representable. In the source, `removeEmprunt(null)` removes the first null entry, if the list holds one, and then throws a `NullPointerException` at `emprunt.setBook(null)`.
- EmpruntManager.BorrowReturnCycle: the return step uses the intended `RendreLivre`. The code as written commits that return and then reports a runtime error (see Findings and `ReturnCommittedButReported`).
- EmpruntManager.RendreLivre: it follows the intended behaviour, the one the unit test with a mocked entity manager expects, not the flush after the commit. The code as written is `RendreLivreAsWritten`.

## Findings

| source | as written | input that shows it | evidently intended | confidence | as-written member | corrected member |
|---|---|---|---|---|---|---|
| src/main/java/fr/appsketch/Emprunt/EmpruntManager.java:83-84 | `rendreLivre` commits the transaction and only then calls `em.flush()`. Hibernate 6 refuses a flush with no active transaction unless `allow_update_outside_transaction` is set, and `HibernateManager` does not set it. The catch then has nothing to roll back and throws `RuntimeException("Erreur lors du retour du livre")` | any book with a running loan on a valid store, for example one just borrowed with `emprunterLivre` | flush before the commit, as `BookManager` does at lines 55-56, 98-99 and 123-124, and report success | medium, not executed | EmpruntManager.RendreLivreAsWritten, EmpruntManager.ReturnCommittedButReported | EmpruntManager.RendreLivre, EmpruntManager.RendreLivreValid |
