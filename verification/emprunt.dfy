/** The loan entity (`Emprunt`) and its state. */
module Emprunts {
  import opened Wrappers

  /** A `LocalDate`, kept as its year, month and day. */
  datatype Date = Date(year: int, month: int, day: int)

  /** The two states of a loan: running, or ended by a return. */
  datatype Etat = EnCours | Termine

  /** A loan. `user` and `book` hold the key of the referenced entity (None
      for a null reference, or for an entity that was never saved); `etat`
      may be null on an entity built without the constructor. */
  datatype Emprunt = Emprunt(
    id: Option<nat>,
    user: Option<nat>,
    book: Option<nat>,
    dateEmprunt: Date,
    etat: Option<Etat>)

  /** A loan counts as running only when its state is `EN_COURS`; a null or
      `TERMINE` state does not. */
  predicate IsEnCours(e: Emprunt) {
    e.etat == Some(EnCours)
  }

  /** `new Emprunt(user, book, date)`: an unsaved loan of `book` to `user`,
      dated `date`, which starts out running. */
  function NewEmprunt(user: Option<nat>, book: Option<nat>, date: Date): (e: Emprunt)
    ensures e.id == None
    ensures e.user == user && e.book == book && e.dateEmprunt == date
    ensures IsEnCours(e)
  {
    Emprunt(None, user, book, date, Some(EnCours))
  }

  /** `setEtat(TERMINE)`: the loan is no longer running and nothing else
      about it changes. */
  function Terminate(e: Emprunt): (r: Emprunt)
    ensures !IsEnCours(r) && r.etat == Some(Termine)
    ensures r.id == e.id && r.user == e.user && r.book == e.book
    ensures r.dateEmprunt == e.dateEmprunt
  {
    e.(etat := Some(Termine))
  }
}
