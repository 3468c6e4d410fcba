/** `UserRepository`: the queries on the `Users` table the account service uses. */
module UserRepository {
  import opened Wrappers
  import opened Entities

  /** The filter of `GetByEmailAsync`: that email, not soft-deleted. */
  predicate ActiveWithEmail(u: User, email: string) {
    u.email == email && !u.isDeleted
  }

  /**
   * `GetByEmailAsync`: the first row in store order with that email that is
   * not soft-deleted, as its position; `None` when there is none.
   */
  function GetByEmail(users: seq<User>, email: string): (r: Option<nat>)
    ensures r.Some? ==> r.value < |users| && users[r.value].email == email && !users[r.value].isDeleted
    ensures r.Some? ==> forall k :: 0 <= k < r.value ==> !ActiveWithEmail(users[k], email)
    ensures r.None? <==> forall k :: 0 <= k < |users| ==> !ActiveWithEmail(users[k], email)
  {
    FirstWhere(users, u => ActiveWithEmail(u, email))
  }

  /** `GetByIdAsync`: the row with that key, deleted or not. */
  function FindUser(users: seq<User>, id: Guid): (r: Option<nat>)
    ensures r.Some? ==> r.value < |users| && users[r.value].id == id
    ensures r.None? <==> forall k :: 0 <= k < |users| ==> users[k].id != id
  {
    FirstWhere(users, (u: User) => u.id == id)
  }
}

/** `VocabularyRepository`: the queries on the `Vocabulary` table the vocabulary service uses. */
module VocabularyRepository {
  import opened Wrappers
  import opened Entities

  /** The filter of `GetByUserIdAsync`: owned by that user, not soft-deleted. */
  predicate ActiveOf(v: Vocabulary, userId: Guid) {
    v.userId == userId && !v.isDeleted
  }

  /** `GetByUserIdAsync`: the user's entries that are not soft-deleted, in store order. */
  function GetByUserId(rows: seq<Vocabulary>, userId: Guid): (r: seq<Vocabulary>)
    ensures forall k :: 0 <= k < |r| ==> r[k].userId == userId && !r[k].isDeleted && r[k] in rows
  {
    Where(rows, v => ActiveOf(v, userId))
  }

  /** Every entry of the user that is not soft-deleted is listed. */
  lemma GetByUserIdComplete(rows: seq<Vocabulary>, userId: Guid)
    ensures forall k :: 0 <= k < |rows| && rows[k].userId == userId && !rows[k].isDeleted ==>
              rows[k] in GetByUserId(rows, userId)
  {
    WhereComplete(rows, v => ActiveOf(v, userId));
  }

  /** The listing keeps store order: the listing of a concatenation is the concatenation of the listings. */
  lemma GetByUserIdInOrder(a: seq<Vocabulary>, b: seq<Vocabulary>, userId: Guid)
    ensures GetByUserId(a + b, userId) == GetByUserId(a, userId) + GetByUserId(b, userId)
  {
    WhereConcat(a, b, v => ActiveOf(v, userId));
  }

  /** `GetByIdAsync`: the row with that key, deleted or not. */
  function FindVocabulary(rows: seq<Vocabulary>, id: Guid): (r: Option<nat>)
    ensures r.Some? ==> r.value < |rows| && rows[r.value].id == id
    ensures r.None? <==> forall k :: 0 <= k < |rows| ==> rows[k].id != id
  {
    FirstWhere(rows, (v: Vocabulary) => v.id == id)
  }
}
