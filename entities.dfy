/**
 * The rows of the EchoAPI database that the account and vocabulary
 * services work on, with the columns the `FirstMigration` creates for the
 * `Users` and `Vocabulary` tables, and the generic store queries the
 * repositories are built from.
 *
 * A table is a sequence of rows in store order; `Guid` keys are natural
 * numbers and `DateTime` values are integer instants.
 */
module Entities {
  import opened Wrappers

  type Guid = nat

  type Instant = int

  /** `default(DateTime)`: what a `DateTime` property holds when nothing sets it. */
  const DefaultInstant: Instant := 0

  /** A row of `Users`; `lastLogin` and `learningGoals` are the nullable columns. */
  datatype User = User(
    id: Guid,
    email: string,
    passwordHash: string,
    createdAt: Instant,
    isDeleted: bool,
    lastLogin: Option<Instant>,
    level: int,
    nativeLanguage: string,
    targetLanguage: string,
    learningGoals: Option<string>,
    allowLearningDataSharing: bool)

  /**
   * A row of `Vocabulary`. `expression` and `translation` are optional
   * because an edit can write a null request value into them.
   */
  datatype Vocabulary = Vocabulary(
    id: Guid,
    userId: Guid,
    isDeleted: bool,
    expression: Option<string>,
    translation: Option<string>,
    exampleSentence: Option<string>,
    addedFrom: int,
    createdAt: Instant,
    knowledgeLevel: int)

  /** The exceptions the services throw: `InvalidOperationException` and `UnauthorizedAccessException`. */
  datatype ServiceError = InvalidOperation(message: string) | Unauthorized(message: string)

  /** `!string.IsNullOrEmpty(s)`. */
  predicate NonEmpty(s: Option<string>) {
    s.Some? && s.value != []
  }

  /** `FirstOrDefault(p)`: the position of the first row satisfying `p`, if any. */
  function FirstWhere<T>(s: seq<T>, p: T -> bool): (r: Option<nat>)
    ensures r.Some? ==> r.value < |s| && p(s[r.value])
    ensures r.Some? ==> forall k :: 0 <= k < r.value ==> !p(s[k])
    ensures r.None? <==> forall k :: 0 <= k < |s| ==> !p(s[k])
  {
    if |s| == 0 then None
    else if p(s[0]) then Some(0)
    else match FirstWhere(s[1..], p) {
      case None => None
      case Some(i) => Some(i + 1)
    }
  }

  /** `Where(p)`: the rows satisfying `p`, in store order. */
  function Where<T>(s: seq<T>, p: T -> bool): (r: seq<T>)
    ensures |r| <= |s|
    ensures forall k :: 0 <= k < |r| ==> p(r[k]) && r[k] in s
  {
    if |s| == 0 then []
    else
      var rest := Where(s[..|s| - 1], p);
      if p(s[|s| - 1]) then rest + [s[|s| - 1]] else rest
  }

  /** Every row satisfying `p` is kept by `Where`. */
  lemma {:induction false} WhereComplete<T>(s: seq<T>, p: T -> bool)
    ensures forall k :: 0 <= k < |s| && p(s[k]) ==> s[k] in Where(s, p)
  {
    if |s| > 0 {
      var init := s[..|s| - 1];
      WhereComplete(init, p);
      forall k | 0 <= k < |s| && p(s[k]) ensures s[k] in Where(s, p) {
        if k < |s| - 1 {
          assert s[k] == init[k];
        }
      }
    }
  }

  /** `Where` keeps store order: filtering a concatenation concatenates the filtered parts. */
  lemma {:induction false} WhereConcat<T>(a: seq<T>, b: seq<T>, p: T -> bool)
    ensures Where(a + b, p) == Where(a, p) + Where(b, p)
  {
    if |b| == 0 {
      assert a + b == a;
    } else {
      var init := b[..|b| - 1];
      WhereConcat(a, init, p);
      assert (a + b)[..|a + b| - 1] == a + init;
      assert (a + b)[|a + b| - 1] == b[|b| - 1];
    }
  }

  /** Any finite set of keys leaves one unused, as `Guid.NewGuid()` is relied on to. */
  lemma FreshGuidExists(ids: set<Guid>)
    ensures exists id: Guid :: id !in ids
  {
    var n := Bound(ids);
    assert n !in ids;
  }

  ghost function Bound(ids: set<Guid>): (n: Guid)
    ensures forall id :: id in ids ==> id < n
    decreases ids
  {
    if ids == {} then 0
    else
      var id :| id in ids;
      var m := Bound(ids - {id});
      assert forall x :: x in ids ==> x == id || x in ids - {id};
      if id + 1 > m then id + 1 else m
  }
}
