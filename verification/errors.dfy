/** What the operations throw. `IllegalArgument` is an
    `IllegalArgumentException` raised by a manager's own checks, before any
    write; `Runtime` is the `RuntimeException` a manager raises after a write
    failed, rolling its transaction back when one is still active;
    `NullPointer` is the
    `NullPointerException` an entity helper hits on a null collection. */
module Errors {

  /** Why a manager refused its arguments. */
  datatype Reason =
    | TitleRequired      // "Le titre est obligatoire"
    | AuthorRequired     // "L'auteur est obligatoire"
    | IsbnTaken          // "Un livre avec cet ISBN existe déjà"
    | BookNotFound(id: nat)  // "Livre non trouvé avec l'ID: " + id
    | UserRequired       // "L'utilisateur est obligatoire"
    | BookRequired       // "Le livre est obligatoire"
    | AlreadyBorrowed    // "Ce livre est déjà emprunté"
    | NotBorrowed        // "Ce livre n'est pas actuellement emprunté"

  /** Why the store rejected a write. */
  datatype Violation =
    | UniqueIsbn     // the unique `isbn` column of Books
    | UniqueEmail    // the unique `email` column of Users
    | NotNull        // the non-null `user_id` / `book_id` columns of Emprunts
    | StaleKey       // a merge of a key that no longer names a row
    | NoTransaction  // a flush with no active transaction (`TransactionRequiredException`)

  datatype Error =
    | IllegalArgument(reason: Reason)
    | Runtime(cause: Violation)
    | NullPointer
}
