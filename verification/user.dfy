/** The borrower entity. Its columns are all declared non-null, and `email`
    is unique. */
module Users {
  import opened Wrappers

  datatype User = User(
    id: Option<nat>,
    nom: string,
    prenom: string,
    email: string,
    motDePasse: string)
}
