/** The relational store the repositories read and write: one ordered table
    per entity, each with the key its next insert will receive (the
    generated identity column). A table's order is the order `findAll`
    returns. */
module Database {
  import opened Wrappers
  import opened Emprunts
  import opened Books
  import opened Users
  import opened Seqs

  datatype Table<T> = Table(rows: seq<T>, nextId: nat)

  datatype Store = Store(books: Table<Book>, users: Table<User>, emprunts: Table<Emprunt>)

  /** A fresh database: no rows, keys start at 1. */
  const Empty: Store := Store(Table([], 1), Table([], 1), Table([], 1))

  /** SQL equality on a key: a null on either side matches nothing. This is
      what `WHERE e.book = :book` and `WHERE e.user.id = :userId` do. */
  predicate Refers(ref: Option<nat>, key: Option<nat>) {
    ref.Some? && ref == key
  }

  /** Position of the first key equal to `k`. */
  function IndexOfKey(keys: seq<Option<nat>>, k: nat): (r: Option<nat>)
    ensures r.Some? ==> r.value < |keys| && keys[r.value] == Some(k)
    ensures r.Some? ==> forall j :: 0 <= j < r.value ==> keys[j] != Some(k)
    ensures r.None? ==> forall j :: 0 <= j < |keys| ==> keys[j] != Some(k)
  {
    if keys == [] then None
    else if keys[0] == Some(k) then Some(0)
    else match IndexOfKey(keys[1..], k)
      case None => None
      case Some(j) => Some(j + 1)
  }

  /** Keys that are all present, all issued (below `next`) and pairwise
      distinct: the primary-key column of a table. */
  predicate KeysValid(keys: seq<Option<nat>>, next: nat) {
    && (forall i :: 0 <= i < |keys| ==> keys[i].Some? && keys[i].value < next)
    && (forall i, j :: 0 <= i < j < |keys| ==> keys[i] != keys[j])
  }

  /** `r` is the position of the first key equal to `k`, or None when no
      key equals `k`. */
  predicate IsFirstIndex(keys: seq<Option<nat>>, k: nat, r: Option<nat>) {
    match r
    case None => forall j :: 0 <= j < |keys| ==> keys[j] != Some(k)
    case Some(i) =>
      && i < |keys| && keys[i] == Some(k)
      && forall j :: 0 <= j < i ==> keys[j] != Some(k)
  }

  /** The first index is unique, so `IndexOfKey` is the only search. */
  lemma FirstIndexUnique(keys: seq<Option<nat>>, k: nat, r: Option<nat>)
    requires IsFirstIndex(keys, k, r)
    ensures IndexOfKey(keys, k) == r
  {
  }

  /** With distinct keys, the key at position `i` is found at `i`. */
  lemma IndexOfDistinct(keys: seq<Option<nat>>, next: nat, i: nat)
    requires KeysValid(keys, next) && i < |keys|
    ensures IndexOfKey(keys, keys[i].value) == Some(i)
  {
    FirstIndexUnique(keys, keys[i].value, Some(i));
  }

  /** Appending a key is seen only by a search that failed before. */
  lemma IndexOfAppend(keys: seq<Option<nat>>, x: Option<nat>, k: nat)
    ensures IndexOfKey(keys + [x], k) ==
      if IndexOfKey(keys, k).Some? then IndexOfKey(keys, k)
      else if x == Some(k) then Some(|keys|)
      else None
  {
    var ks := keys + [x];
    var before := IndexOfKey(keys, k);
    var expected := if before.Some? then before else if x == Some(k) then Some(|keys|) else None;
    assert forall j :: 0 <= j < |keys| ==> ks[j] == keys[j];
    assert ks[|keys|] == x;
    assert IsFirstIndex(ks, k, expected);
    FirstIndexUnique(ks, k, expected);
  }

  /** Removing the row at `i` shifts the position of every other key that
      lies after it and hides none. */
  lemma IndexOfRemove(keys: seq<Option<nat>>, i: nat, k: nat)
    requires i < |keys| && keys[i] != Some(k)
    ensures IndexOfKey(keys[..i] + keys[i + 1..], k) ==
      match IndexOfKey(keys, k)
      case None => None
      case Some(j) => Some(if j < i then j else j - 1)
  {
    var ks := keys[..i] + keys[i + 1..];
    assert forall j :: 0 <= j < i ==> ks[j] == keys[j];
    assert forall j :: i <= j < |ks| ==> ks[j] == keys[j + 1];
    var expected := match IndexOfKey(keys, k)
      case None => None
      case Some(j) => Some(if j < i then j else j - 1);
    assert IsFirstIndex(ks, k, expected) by {
      if expected.None? {
        forall j | 0 <= j < |ks| ensures ks[j] != Some(k) {
          if j >= i { assert ks[j] == keys[j + 1]; }
        }
      } else {
        var e := expected.value;
        forall j | 0 <= j < e ensures ks[j] != Some(k) {
          if j >= i { assert ks[j] == keys[j + 1]; }
        }
      }
    }
    FirstIndexUnique(ks, k, expected);
  }

  /** The row whose key (read from the parallel `keys`) is `k`: the first
      one, as a primary-key lookup finds it. */
  function Lookup<T>(rows: seq<T>, keys: seq<Option<nat>>, k: nat): (r: Option<T>)
    requires |keys| == |rows|
    ensures r.Some? <==> exists i :: 0 <= i < |keys| && keys[i] == Some(k)
    ensures r.Some? ==> exists i :: 0 <= i < |keys| && keys[i] == Some(k) && rows[i] == r.value
  {
    match IndexOfKey(keys, k)
    case None => None
    case Some(i) => Some(rows[i])
  }

  /** After appending `x` under key `kx`, only `kx`, if it was unused, finds
      something new. */
  lemma LookupAppend<T>(rows: seq<T>, keys: seq<Option<nat>>, x: T, kx: Option<nat>, k: nat)
    requires |keys| == |rows|
    ensures Lookup(rows + [x], keys + [kx], k) ==
      if kx == Some(k) && Lookup(rows, keys, k).None? then Some(x) else Lookup(rows, keys, k)
  {
    IndexOfAppend(keys, kx, k);
    match IndexOfKey(keys, k)
    case None =>
    case Some(j) => assert (rows + [x])[j] == rows[j];
  }

  /** After removing the row at `i`, every other key finds what it found. */
  lemma LookupRemove<T>(rows: seq<T>, keys: seq<Option<nat>>, i: nat, k: nat)
    requires |keys| == |rows| && i < |rows| && keys[i] != Some(k)
    ensures Lookup(rows[..i] + rows[i + 1..], keys[..i] + keys[i + 1..], k) == Lookup(rows, keys, k)
  {
    IndexOfRemove(keys, i, k);
    var rows' := rows[..i] + rows[i + 1..];
    match IndexOfKey(keys, k)
    case None =>
    case Some(j) =>
      if j < i { assert rows'[j] == rows[j]; } else { assert rows'[j - 1] == rows[j]; }
  }

  /** With distinct keys, removing the row at `i` leaves its key unused. */
  lemma LookupRemoveDistinct<T>(rows: seq<T>, keys: seq<Option<nat>>, next: nat, i: nat)
    requires |keys| == |rows| && i < |rows| && KeysValid(keys, next)
    ensures Lookup(rows[..i] + rows[i + 1..], keys[..i] + keys[i + 1..], keys[i].value) == None
  {
    var ks := keys[..i] + keys[i + 1..];
    forall j | 0 <= j < |ks| ensures ks[j] != keys[i] {
      if j < i { assert ks[j] == keys[j]; } else { assert ks[j] == keys[j + 1]; }
    }
  }

  /** Overwriting the row at `i` without changing its key is seen only by the
      lookup that lands on `i`. */
  lemma LookupReplace<T>(rows: seq<T>, keys: seq<Option<nat>>, i: nat, x: T, k: nat)
    requires |keys| == |rows| && i < |rows|
    ensures Lookup(rows[i := x], keys, k) ==
      if IndexOfKey(keys, k) == Some(i) then Some(x) else Lookup(rows, keys, k)
  {
  }

  function BookKeys(rows: seq<Book>): (keys: seq<Option<nat>>)
    ensures |keys| == |rows| && forall i :: 0 <= i < |rows| ==> keys[i] == rows[i].id
  {
    seq(|rows|, i requires 0 <= i < |rows| => rows[i].id)
  }

  function UserKeys(rows: seq<User>): (keys: seq<Option<nat>>)
    ensures |keys| == |rows| && forall i :: 0 <= i < |rows| ==> keys[i] == rows[i].id
  {
    seq(|rows|, i requires 0 <= i < |rows| => rows[i].id)
  }

  function EmpruntKeys(rows: seq<Emprunt>): (keys: seq<Option<nat>>)
    ensures |keys| == |rows| && forall i :: 0 <= i < |rows| ==> keys[i] == rows[i].id
  {
    seq(|rows|, i requires 0 <= i < |rows| => rows[i].id)
  }

  /** The unique `isbn` column: two rows never hold the same non-null ISBN
      (the empty string is a value like any other). */
  predicate IsbnUnique(rows: seq<Book>) {
    forall i, j :: 0 <= i < j < |rows| && rows[i].isbn.Some? ==> rows[i].isbn != rows[j].isbn
  }

  /** The unique `email` column of Users. */
  predicate EmailUnique(rows: seq<User>) {
    forall i, j :: 0 <= i < j < |rows| ==> rows[i].email != rows[j].email
  }

  /** The non-null `user_id` and `book_id` columns, holding keys that the
      Users and Books tables have issued. Foreign keys are not enforced, so a
      loan may name a user that was deleted since. */
  predicate LoanRefsIssued(s: Store) {
    forall i :: 0 <= i < |s.emprunts.rows| ==>
      var e := s.emprunts.rows[i];
      && e.user.Some? && e.user.value < s.users.nextId
      && e.book.Some? && e.book.value < s.books.nextId
  }

  /** Everything the database schema itself guarantees. */
  predicate Consistent(s: Store) {
    && KeysValid(BookKeys(s.books.rows), s.books.nextId)
    && KeysValid(UserKeys(s.users.rows), s.users.nextId)
    && KeysValid(EmpruntKeys(s.emprunts.rows), s.emprunts.nextId)
    && IsbnUnique(s.books.rows)
    && EmailUnique(s.users.rows)
    && LoanRefsIssued(s)
  }

  /** The loan-state rule the managers keep: at most one running loan per
      book. No column constraint enforces it. */
  predicate OneActiveLoanPerBook(rows: seq<Emprunt>) {
    forall i, j :: 0 <= i < j < |rows| && IsEnCours(rows[i]) && IsEnCours(rows[j]) ==>
      rows[i].book != rows[j].book
  }

  /** The store invariant every manager operation preserves. */
  predicate Valid(s: Store) {
    Consistent(s) && OneActiveLoanPerBook(s.emprunts.rows)
  }

  lemma EmptyValid()
    ensures Valid(Empty)
  {
  }

  /** Keeping a subsequence of the loan table keeps its keys valid and its
      one-running-loan rule. */
  lemma SubseqKeepsLoanRules(a: seq<Emprunt>, b: seq<Emprunt>, next: nat)
    requires IsSubseq(a, b)
    ensures KeysValid(EmpruntKeys(b), next) ==> KeysValid(EmpruntKeys(a), next)
    ensures OneActiveLoanPerBook(b) ==> OneActiveLoanPerBook(a)
  {
    forall i | 0 <= i < |a| ensures exists j :: 0 <= j < |b| && b[j] == a[i] {
      SubseqElem(a, b, i);
    }
    forall i, j | 0 <= i < j < |a|
      ensures exists i', j' :: 0 <= i' < j' < |b| && b[i'] == a[i] && b[j'] == a[j]
    {
      SubseqPair(a, b, i, j);
    }
    if KeysValid(EmpruntKeys(b), next) {
      forall i | 0 <= i < |a| ensures a[i].id.Some? && a[i].id.value < next {
        var j :| 0 <= j < |b| && b[j] == a[i];
        assert EmpruntKeys(b)[j] == a[i].id;
      }
      forall i, j | 0 <= i < j < |a| ensures a[i].id != a[j].id {
        var i', j' :| 0 <= i' < j' < |b| && b[i'] == a[i] && b[j'] == a[j];
        assert EmpruntKeys(b)[i'] == a[i].id && EmpruntKeys(b)[j'] == a[j].id;
      }
    }
    if OneActiveLoanPerBook(b) {
      forall i, j | 0 <= i < j < |a| && IsEnCours(a[i]) && IsEnCours(a[j])
        ensures a[i].book != a[j].book
      {
        var i', j' :| 0 <= i' < j' < |b| && b[i'] == a[i] && b[j'] == a[j];
      }
    }
  }
}
