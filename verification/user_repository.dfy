/** `UserRepository`: the user table's save, lookups, e-mail probes and
    delete. Deleting a user does not touch the loans that name it. */
module UserRepository {
  import opened Wrappers
  import opened Errors
  import opened Users
  import opened Seqs
  import opened Database

  /** `findById(id)`: the stored user with that key, or empty. */
  function FindById(s: Store, id: nat): (r: Option<User>)
    ensures r.Some? <==> exists i :: 0 <= i < |s.users.rows| && s.users.rows[i].id == Some(id)
    ensures r.Some? ==> r.value.id == Some(id) && r.value in s.users.rows
  {
    Lookup(s.users.rows, UserKeys(s.users.rows), id)
  }

  /** `findAll()`: every stored user, one entry per row. */
  function FindAll(s: Store): (r: seq<User>)
    ensures |r| == |s.users.rows|
    ensures forall k: nat :: FindById(s, k).Some? ==> FindById(s, k).value in r
    ensures forall u :: u in r <==> u in s.users.rows
  {
    s.users.rows
  }

  /** Some row other than the one at `except` holds the e-mail; a null
      e-mail matches nothing. */
  predicate EmailHeld(rows: seq<User>, email: Option<string>, except: int) {
    email.Some? && exists j :: 0 <= j < |rows| && j != except && rows[j].email == email.value
  }

  function HasEmail(email: Option<string>): (p: User -> bool)
    ensures forall u :: p(u) == (email.Some? && u.email == email.value)
  {
    (u: User) => email.Some? && u.email == email.value
  }

  /** Position of the first row holding `email`. */
  function FirstWithEmail(rows: seq<User>, email: Option<string>): (r: Option<nat>)
    ensures r.Some? ==> r.value < |rows| && email.Some? && rows[r.value].email == email.value
    ensures r.Some? ==> forall j :: 0 <= j < r.value ==> Some(rows[j].email) != email
    ensures r.None? <==> !EmailHeld(rows, email, -1)
  {
    if email.None? || rows == [] then None
    else if rows[0].email == email.value then Some(0)
    else match FirstWithEmail(rows[1..], email)
      case None => None
      case Some(j) => Some(j + 1)
  }

  /** `findByEmail(email)`: the first user with exactly that e-mail, or
      empty; a null argument finds nothing. */
  function FindByEmail(s: Store, email: Option<string>): (r: Option<User>)
    ensures r.Some? <==> EmailHeld(s.users.rows, email, -1)
    ensures r.Some? ==> Some(r.value.email) == email
    ensures r.Some? ==> exists i :: (0 <= i < |s.users.rows| && r.value == s.users.rows[i]
      && forall j :: 0 <= j < i ==> Some(s.users.rows[j].email) != email)
  {
    match FirstWithEmail(s.users.rows, email)
    case None => None
    case Some(i) => Some(s.users.rows[i])
  }

  /** `existsByEmail(email)`: the count of users holding the e-mail is
      positive. */
  function ExistsByEmail(s: Store, email: Option<string>): (r: bool)
    ensures r <==> EmailHeld(s.users.rows, email, -1)
  {
    var holders := Filter(s.users.rows, HasEmail(email));
    assert EmailHeld(s.users.rows, email, -1) ==> holders != [] by {
      if EmailHeld(s.users.rows, email, -1) {
        var j :| 0 <= j < |s.users.rows| && s.users.rows[j].email == email.value;
        assert s.users.rows[j] in holders;
      }
    }
    assert holders != [] ==> EmailHeld(s.users.rows, email, -1) by {
      if holders != [] {
        assert holders[0] in s.users.rows;
      }
    }
    |holders| > 0
  }

  /** The existence probe and the lookup agree. */
  lemma ExistsIffFound(s: Store, email: Option<string>)
    ensures ExistsByEmail(s, email) <==> FindByEmail(s, email).Some?
  {
  }

  /** `save(user)`: a user without a key is inserted under the next key; a
      user with a key replaces the stored user with that key. The unique
      `email` column rejects an e-mail another row holds, and a merge of a
      key that names no row fails. */
  function Save(s: Store, u: User): (r: Result<(Store, User), Violation>)
    ensures u.id == None ==> (r.Failure? <==> EmailHeld(s.users.rows, Some(u.email), -1))
    ensures r.Failure? ==> r.error == UniqueEmail || (r.error == StaleKey && u.id.Some? && FindById(s, u.id.value) == None)
    ensures u.id.Some? && FindById(s, u.id.value).Some? ==>
      (r.Failure? <==> EmailHeld(s.users.rows, Some(u.email), IndexOfKey(UserKeys(s.users.rows), u.id.value).value))
    ensures r.Success? ==> r.value.0.books == s.books && r.value.0.emprunts == s.emprunts
    ensures r.Success? && u.id == None ==>
      var (s', saved) := r.value;
      && saved == u.(id := Some(s.users.nextId))
      && s'.users.rows == s.users.rows + [saved]
      && s'.users.nextId == s.users.nextId + 1
      && (forall k: nat :: k != s.users.nextId ==> FindById(s', k) == FindById(s, k))
      && (KeysValid(UserKeys(s.users.rows), s.users.nextId) ==> FindById(s', s.users.nextId) == Some(saved))
    ensures r.Success? && u.id.Some? ==>
      var (s', saved) := r.value;
      && saved == u
      && |s'.users.rows| == |s.users.rows|
      && s'.users.nextId == s.users.nextId
      && FindById(s', u.id.value) == Some(u)
      && (forall k: nat :: k != u.id.value ==> FindById(s', k) == FindById(s, k))
      && var i := IndexOfKey(UserKeys(s.users.rows), u.id.value);
      && i.Some? && s'.users == s.users.(rows := s.users.rows[i.value := u])
  {
    var rows := s.users.rows;
    if u.id == None then
      if EmailHeld(rows, Some(u.email), -1) then Failure(UniqueEmail)
      else
        var saved := u.(id := Some(s.users.nextId));
        var s' := s.(users := Table(rows + [saved], s.users.nextId + 1));
        assert UserKeys(rows + [saved]) == UserKeys(rows) + [saved.id];
        assert forall k: nat :: FindById(s', k) == (if k == s.users.nextId && FindById(s, k).None? then Some(saved) else FindById(s, k)) by {
          forall k: nat {
            LookupAppend(rows, UserKeys(rows), saved, saved.id, k);
          }
        }
        Success((s', saved))
    else
      match IndexOfKey(UserKeys(rows), u.id.value)
      case None => Failure(StaleKey)
      case Some(i) =>
        if EmailHeld(rows, Some(u.email), i) then Failure(UniqueEmail)
        else
          var s' := s.(users := s.users.(rows := rows[i := u]));
          assert UserKeys(rows[i := u]) == UserKeys(rows);
          assert forall k: nat :: FindById(s', k) == (if k == u.id.value then Some(u) else FindById(s, k)) by {
            forall k: nat {
              LookupReplace(rows, UserKeys(rows), i, u, k);
            }
          }
          Success((s', u))
  }

  /** A successful save keeps the store consistent: keys stay issued and
      distinct, and the e-mail column stays unique. */
  lemma SaveConsistent(s: Store, u: User)
    requires Consistent(s)
    requires Save(s, u).Success?
    ensures Consistent(Save(s, u).value.0)
  {
    var s' := Save(s, u).value.0;
    var rows := s.users.rows;
    if u.id == None {
      assert UserKeys(s'.users.rows) == UserKeys(rows) + [Some(s.users.nextId)];
      var rows' := s'.users.rows;
      forall i, j | 0 <= i < j < |rows'|
        ensures rows'[i].email != rows'[j].email
      {
        if j == |rows| {
          assert rows'[i] == rows[i];
        }
      }
    } else {
      var i := IndexOfKey(UserKeys(rows), u.id.value).value;
      assert s'.users.rows == rows[i := u];
      assert UserKeys(rows[i := u]) == UserKeys(rows);
      var rows' := rows[i := u];
      forall p, q | 0 <= p < q < |rows'|
        ensures rows'[p].email != rows'[q].email
      {
        if p == i {
          assert rows'[q] == rows[q];
        } else if q == i {
          assert rows'[p] == rows[p];
        }
      }
    }
  }

  /** `deleteById(id)`: removes the user with that key, and does nothing when
      no user has it. */
  function DeleteById(s: Store, id: nat): (s': Store)
    ensures FindById(s, id) == None ==> s' == s
    ensures s'.books == s.books && s'.emprunts == s.emprunts && s'.users.nextId == s.users.nextId
    ensures FindById(s, id).Some? ==> |s'.users.rows| == |s.users.rows| - 1
    ensures forall k: nat :: k != id ==> FindById(s', k) == FindById(s, k)
    ensures KeysValid(UserKeys(s.users.rows), s.users.nextId) ==> FindById(s', id) == None
    ensures var i := IndexOfKey(UserKeys(s.users.rows), id);
      i.Some? ==> s'.users.rows == s.users.rows[..i.value] + s.users.rows[i.value + 1..]
  {
    var rows := s.users.rows;
    match IndexOfKey(UserKeys(rows), id)
    case None => s
    case Some(i) =>
      var rows' := rows[..i] + rows[i + 1..];
      var s' := s.(users := s.users.(rows := rows'));
      var keys := UserKeys(rows);
      assert UserKeys(rows') == keys[..i] + keys[i + 1..];
      assert forall k: nat :: k != id ==> FindById(s', k) == FindById(s, k) by {
        forall k: nat | k != id {
          LookupRemove(rows, keys, i, k);
        }
      }
      assert KeysValid(keys, s.users.nextId) ==> FindById(s', id) == None by {
        if KeysValid(keys, s.users.nextId) {
          LookupRemoveDistinct(rows, keys, s.users.nextId, i);
        }
      }
      s'
  }

  /** Deleting a user keeps the store valid. The user's loans stay: no
      cascade is mapped on this side and foreign keys are not enforced, so
      they keep naming a key that was issued. */
  lemma DeleteValid(s: Store, id: nat)
    requires Valid(s)
    ensures Valid(DeleteById(s, id))
  {
    match IndexOfKey(UserKeys(s.users.rows), id)
    case None =>
    case Some(i) =>
      var rows := s.users.rows;
      var rows' := rows[..i] + rows[i + 1..];
      assert DeleteById(s, id).users.rows == rows';
      assert forall p :: 0 <= p < |rows'| ==> rows'[p] == rows[if p < i then p else p + 1];
  }
}
