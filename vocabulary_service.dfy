/**
 * `VocabularyService`: adding, listing, editing and soft-deleting the
 * entries of users' vocabulary lists, over the `Vocabulary` table.
 *
 * Edit and delete are given only the entry's key: they act on any entry
 * that exists and is not deleted, whoever owns it.
 */
module Vocabularies {
  import opened Wrappers
  import opened Entities
  import opened VocabularyRepository

  /** `AddVocabularyRequest`. */
  datatype AddRequest = AddRequest(
    expression: string,
    translation: string,
    exampleSentence: Option<string>,
    addedFrom: int,
    knowledgeLevel: int)

  /** `EditVocabularyRequest`: every field may be null. */
  datatype EditRequest = EditRequest(
    expression: Option<string>,
    translation: Option<string>,
    exampleSentence: Option<string>)

  /** `VocabularyResponse`; the two enumerations are kept as their numbers. */
  datatype VocabularyView = VocabularyView(
    id: Guid,
    expression: Option<string>,
    translation: Option<string>,
    exampleSentence: Option<string>,
    addedFrom: int,
    knowledgeLevel: int,
    createdAt: Instant)

  const NotFoundOrUnauthorized: string := "Vocabulary not found or unauthorized"

  /** The `Vocabulary` to `VocabularyResponse` mapping. */
  function ViewOf(v: Vocabulary): VocabularyView {
    VocabularyView(v.id, v.expression, v.translation, v.exampleSentence, v.addedFrom, v.knowledgeLevel, v.createdAt)
  }

  /** The mapping of a list of entries, entry by entry. */
  function ViewsOf(entries: seq<Vocabulary>): (r: seq<VocabularyView>)
    ensures |r| == |entries|
    ensures forall k :: 0 <= k < |r| ==> r[k] == ViewOf(entries[k])
  {
    seq(|entries|, k requires 0 <= k < |entries| => ViewOf(entries[k]))
  }

  /**
   * The `AddVocabularyRequest` to `Vocabulary` mapping: the request's
   * fields copied; key, owner, deletion flag and creation time at their
   * defaults.
   */
  function MappedEntry(request: AddRequest): Vocabulary {
    Vocabulary(0, 0, false, Some(request.expression), Some(request.translation), request.exampleSentence,
               request.addedFrom, DefaultInstant, request.knowledgeLevel)
  }

  /** The condition under which `EditVocabularyAsync` writes the entry. */
  predicate Overwrites(request: EditRequest) {
    NonEmpty(request.expression) || NonEmpty(request.translation) || request.exampleSentence.Some?
  }

  /**
   * The update of `EditVocabularyAsync`: when any of the three request
   * fields is set, both the expression and the translation are overwritten
   * with the request's values, even a null or empty one.
   */
  function ApplyEdit(v: Vocabulary, request: EditRequest): (r: Vocabulary)
    ensures r == v.(expression := r.expression, translation := r.translation)
    ensures !Overwrites(request) ==> r == v
    ensures Overwrites(request) ==> r.expression == request.expression && r.translation == request.translation
  {
    if Overwrites(request) then v.(expression := request.expression, translation := request.translation) else v
  }

  /** An edit repeated changes nothing more. */
  lemma ApplyEditIdempotent(v: Vocabulary, request: EditRequest)
    ensures ApplyEdit(ApplyEdit(v, request), request) == ApplyEdit(v, request)
  {
  }

  /** Keys are unique, as the primary key of `Vocabulary` demands. */
  ghost predicate KeysUnique(rows: seq<Vocabulary>) {
    forall j, k :: 0 <= j < k < |rows| ==> rows[j].id != rows[k].id
  }

  /**
   * How the table may change: entries are only added at the end, keep
   * their key and owner, and a soft-deleted entry never changes again.
   */
  ghost predicate VocabularyHistory(before: seq<Vocabulary>, after: seq<Vocabulary>) {
    && |before| <= |after|
    && forall k :: 0 <= k < |before| ==>
         && after[k].id == before[k].id
         && after[k].userId == before[k].userId
         && (before[k].isDeleted ==> after[k] == before[k])
  }

  /** The entry `GetByIdAsync` finds under that key, unless it is missing or soft-deleted. */
  function ActiveEntry(rows: seq<Vocabulary>, id: Guid): (r: Option<nat>)
    ensures r.Some? ==> r.value < |rows| && rows[r.value].id == id && !rows[r.value].isDeleted
    ensures KeysUnique(rows) ==>
              (r.None? <==> forall k :: 0 <= k < |rows| && rows[k].id == id ==> rows[k].isDeleted)
  {
    match FindVocabulary(rows, id)
    case None => None
    case Some(i) => if rows[i].isDeleted then None else Some(i)
  }

  /** Rewriting an entry that is not deleted, keeping its key and owner, keeps the table's invariants. */
  lemma RewriteActive(rows: seq<Vocabulary>, i: nat, v: Vocabulary)
    requires i < |rows| && !rows[i].isDeleted
    requires v.id == rows[i].id && v.userId == rows[i].userId
    ensures KeysUnique(rows) ==> KeysUnique(rows[i := v])
    ensures VocabularyHistory(rows, rows[i := v])
  {
  }

  /** A soft-deleted entry is not in any user's list. */
  lemma DeletedNotListed(rows: seq<Vocabulary>, i: nat, userId: Guid)
    requires KeysUnique(rows) && i < |rows| && rows[i].isDeleted
    ensures forall k :: 0 <= k < |GetByUserId(rows, userId)| ==> GetByUserId(rows, userId)[k].id != rows[i].id
  {
    var listed := GetByUserId(rows, userId);
    forall k | 0 <= k < |listed| ensures listed[k].id != rows[i].id {
      var j :| 0 <= j < |rows| && rows[j] == listed[k];
      assert j != i;
    }
  }

  /** `view` is what the user sees of one of their entries that is not deleted. */
  ghost predicate ShowsActiveEntry(rows: seq<Vocabulary>, userId: Guid, view: VocabularyView) {
    exists j :: 0 <= j < |rows| && ActiveOf(rows[j], userId) && view == ViewOf(rows[j])
  }

  class VocabularyService {
    var vocabularies: seq<Vocabulary>

    ghost predicate Valid()
      reads this
    {
      KeysUnique(vocabularies)
    }

    constructor (vocabularies: seq<Vocabulary>)
      requires KeysUnique(vocabularies)
      ensures this.vocabularies == vocabularies
      ensures Valid()
    {
      this.vocabularies := vocabularies;
    }

    /**
     * `AddVocabularyAsync`: stores one entry owned by the caller, with the
     * request's fields, under a fresh key. The creation time is not set.
     */
    method AddVocabulary(userId: Guid, request: AddRequest) returns (view: VocabularyView)
      requires Valid()
      modifies this
      ensures Valid()
      ensures forall k :: 0 <= k < |old(vocabularies)| ==> old(vocabularies)[k].id != view.id
      ensures vocabularies == old(vocabularies) + [MappedEntry(request).(id := view.id, userId := userId)]
      ensures view == ViewOf(vocabularies[|vocabularies| - 1])
      ensures VocabularyHistory(old(vocabularies), vocabularies)
    {
      var vocabulary := MappedEntry(request);
      vocabulary := vocabulary.(userId := userId);
      var keys := set v | v in vocabularies :: v.id;
      FreshGuidExists(keys);
      var id :| id !in keys;
      vocabulary := vocabulary.(id := id);
      assert forall k :: 0 <= k < |vocabularies| ==> vocabularies[k].id in keys;
      vocabularies := vocabularies + [vocabulary];
      view := ViewOf(vocabulary);
    }

    /** `GetUserVocabulariesAsync`: the views of the user's entries that are not deleted, in store order. */
    method GetUserVocabularies(userId: Guid) returns (views: seq<VocabularyView>)
      ensures views == ViewsOf(GetByUserId(vocabularies, userId))
      ensures forall k :: 0 <= k < |views| ==> ShowsActiveEntry(vocabularies, userId, views[k])
    {
      var entries := GetByUserId(vocabularies, userId);
      views := ViewsOf(entries);
      forall k | 0 <= k < |views| ensures ShowsActiveEntry(vocabularies, userId, views[k]) {
        assert entries[k] in vocabularies;
        var j :| 0 <= j < |vocabularies| && vocabularies[j] == entries[k];
        assert ActiveOf(vocabularies[j], userId) && views[k] == ViewOf(vocabularies[j]);
      }
    }

    /**
     * `EditVocabularyAsync`: refuses a missing or deleted entry; otherwise
     * applies the edit, which either overwrites both the expression and the
     * translation or changes nothing.
     */
    method EditVocabulary(vocabularyId: Guid, request: EditRequest) returns (r: Result<VocabularyView, ServiceError>)
      requires Valid()
      modifies this
      ensures Valid()
      ensures ActiveEntry(old(vocabularies), vocabularyId).None? ==>
                r == Err(InvalidOperation(NotFoundOrUnauthorized)) && vocabularies == old(vocabularies)
      ensures ActiveEntry(old(vocabularies), vocabularyId).Some? ==>
                var i := ActiveEntry(old(vocabularies), vocabularyId).value;
                && vocabularies == old(vocabularies)[i := ApplyEdit(old(vocabularies)[i], request)]
                && r == Ok(ViewOf(vocabularies[i]))
      ensures VocabularyHistory(old(vocabularies), vocabularies)
    {
      var found := FindVocabulary(vocabularies, vocabularyId);
      if found.None? || vocabularies[found.value].isDeleted {
        return Err(InvalidOperation(NotFoundOrUnauthorized));
      }
      var i := found.value;
      var vocabulary := vocabularies[i];
      if NonEmpty(request.expression) || NonEmpty(request.translation) || request.exampleSentence.Some? {
        vocabulary := vocabulary.(expression := request.expression);
        vocabulary := vocabulary.(translation := request.translation);
      }
      RewriteActive(vocabularies, i, vocabulary);
      vocabularies := vocabularies[i := vocabulary];
      r := Ok(ViewOf(vocabulary));
    }

    /**
     * `DeleteVocabularyAsync`: refuses a missing or deleted entry; otherwise
     * marks it deleted, which takes it out of its owner's list, and answers
     * true. A second delete of the same key is refused.
     */
    method DeleteVocabulary(vocabularyId: Guid) returns (r: Result<bool, ServiceError>)
      requires Valid()
      modifies this
      ensures Valid()
      ensures ActiveEntry(old(vocabularies), vocabularyId).None? ==>
                r == Err(InvalidOperation(NotFoundOrUnauthorized)) && vocabularies == old(vocabularies)
      ensures ActiveEntry(old(vocabularies), vocabularyId).Some? ==>
                var i := ActiveEntry(old(vocabularies), vocabularyId).value;
                vocabularies == old(vocabularies)[i := old(vocabularies)[i].(isDeleted := true)] && r == Ok(true)
      ensures ActiveEntry(vocabularies, vocabularyId).None?
      ensures r.Ok? ==> forall u: Guid, k :: 0 <= k < |GetByUserId(vocabularies, u)| ==>
                          GetByUserId(vocabularies, u)[k].id != vocabularyId
      ensures VocabularyHistory(old(vocabularies), vocabularies)
    {
      var found := FindVocabulary(vocabularies, vocabularyId);
      if found.None? || vocabularies[found.value].isDeleted {
        return Err(InvalidOperation(NotFoundOrUnauthorized));
      }
      var i := found.value;
      RewriteActive(vocabularies, i, vocabularies[i].(isDeleted := true));
      vocabularies := vocabularies[i := vocabularies[i].(isDeleted := true)];
      forall u: Guid
        ensures forall k :: 0 <= k < |GetByUserId(vocabularies, u)| ==> GetByUserId(vocabularies, u)[k].id != vocabularyId
      {
        DeletedNotListed(vocabularies, i, u);
      }
      r := Ok(true);
    }
  }
}
