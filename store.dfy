/**
 * The announcements collection and the five endpoints of the router over it.
 * The collection is a map from ObjectId key to document; the teacher directory
 * is the set of usernames it holds. The clock and the id generator are inputs:
 * `today` for the active filter, `createdAt` and `newId` for a create.
 */
module Store {
  import opened Wrappers
  import opened Dates
  import opened ObjectIds
  import opened Announcements

  /** The API view `v` is a document of `docs`, under its own key. */
  predicate Stored(docs: map<string, Announcement>, v: View) {
    v.id in docs && docs[v.id] == v.ann
  }

  class AnnouncementStore {
    var docs: map<string, Announcement>
    const teachers: set<string>

    /** Every document is keyed by an ObjectId. */
    ghost predicate Valid()
      reads this
    {
      forall k :: k in docs ==> IsObjectId(k)
    }

    /** Every document is in the form the create and update endpoints write. */
    ghost predicate Normalised()
      reads this
    {
      forall k :: k in docs ==> NormalRecord(docs[k])
    }

    /** A store over existing documents, which need not be normalised. */
    constructor (teachers: set<string>, docs: map<string, Announcement>)
      requires forall k :: k in docs ==> IsObjectId(k)
      ensures Valid()
      ensures this.teachers == teachers && this.docs == docs
    {
      this.teachers := teachers;
      this.docs := docs;
    }

    /** `list_announcements`: every document once, sorted by expiration string. */
    method ListAll() returns (out: seq<View>)
      requires Valid()
      ensures SortedByExpiration(out)
      ensures forall v :: multiset(out)[v] == if Stored(docs, v) then 1 else 0
      ensures forall v :: v in out ==> ParseId(v.id) == Some(v.id)
    {
      var pending := docs.Keys;
      var found: seq<View> := [];
      while pending != {}
        invariant pending <= docs.Keys
        invariant forall v :: multiset(found)[v] == if Stored(docs, v) && v.id !in pending then 1 else 0
        decreases pending
      {
        var k :| k in pending;
        found := found + [View(k, docs[k])];
        pending := pending - {k};
      }
      out := SortByExpiration(found);
      forall v | v in out
        ensures ParseId(v.id) == Some(v.id)
      {
        assert multiset(out)[v] > 0;
        ParseIdOfKey(v.id);
      }
    }

    /** `active_announcements`: every document active on `today` once, and no other,
        sorted by expiration string. */
    method ListActive(today: Date) returns (out: seq<View>)
      requires Valid()
      ensures SortedByExpiration(out)
      ensures forall v :: multiset(out)[v] == if Stored(docs, v) && IsActive(v.ann, today) then 1 else 0
      ensures forall v :: v in out ==> ExpirationOf(v.ann).Some?
      ensures forall v :: v in out ==> ParseId(v.id) == Some(v.id)
    {
      var pending := docs.Keys;
      var found: seq<View> := [];
      while pending != {}
        invariant pending <= docs.Keys
        invariant forall v ::
          multiset(found)[v] == if Stored(docs, v) && IsActive(v.ann, today) && v.id !in pending then 1 else 0
        decreases pending
      {
        var k :| k in pending;
        var a := docs[k];
        if IsActive(a, today) {
          found := found + [View(k, a)];
        }
        pending := pending - {k};
      }
      out := SortByExpiration(found);
      forall v | v in out
        ensures ExpirationOf(v.ann).Some? && ParseId(v.id) == Some(v.id)
      {
        assert multiset(out)[v] > 0;
        ParseIdOfKey(v.id);
      }
    }

    /** `create_announcement`: on success exactly one document is added, under the
        fresh key; on failure nothing changes. */
    method Create(message: string, expiration: string, username: Option<string>,
                  start: Option<string>, createdAt: string, newId: string) returns (r: Result<View>)
      requires Valid()
      requires IsObjectId(newId) && newId !in docs
      modifies this
      ensures Valid()
      ensures match NewAnnouncement(teachers, username, message, expiration, start, createdAt)
        case Err(e) => r == Err(e) && docs == old(docs)
        case Ok(a) => r == Ok(View(newId, a)) && docs == old(docs)[newId := a]
      ensures r.Ok? ==> |docs| == |old(docs)| + 1
      ensures old(Normalised()) ==> Normalised()
    {
      var doc := NewAnnouncement(teachers, username, message, expiration, start, createdAt);
      if doc.Err? {
        return Err(doc.error);
      }
      docs := docs[newId := doc.value];
      r := Ok(View(newId, doc.value));
    }

    /** `update_announcement`: on success the supplied fields of the one document are
        overwritten and nothing else changes; on failure nothing changes. */
    method Update(annId: string, message: Option<string>, expiration: Option<string>,
                  username: Option<string>, start: Option<string>) returns (r: Result<View>)
      requires Valid()
      modifies this
      ensures Valid()
      ensures match UpdatePlan(teachers, username, annId, message, expiration, start)
        case Err(e) => r == Err(e) && docs == old(docs)
        case Ok((k, p)) =>
          if k in old(docs) then
            r == Ok(View(k, Merge(old(docs)[k], p))) && docs == old(docs)[k := Merge(old(docs)[k], p)]
          else
            r == Err(NotFound) && docs == old(docs)
      ensures docs.Keys == old(docs.Keys)
      ensures old(Normalised()) ==> Normalised()
    {
      var plan := UpdatePlan(teachers, username, annId, message, expiration, start);
      if plan.Err? {
        return Err(plan.error);
      }
      var (k, patch) := plan.value;
      if k !in docs {
        return Err(NotFound);
      }
      var updated := Merge(docs[k], patch);
      docs := docs[k := updated];
      r := Ok(View(k, updated));
    }

    /** `delete_announcement`: on success exactly the named key is removed; on failure
        nothing changes. */
    method Delete(annId: string, username: Option<string>) returns (r: Result<()>)
      requires Valid()
      modifies this
      ensures Valid()
      ensures match DeleteTarget(teachers, username, annId)
        case Err(e) => r == Err(e) && docs == old(docs)
        case Ok(k) =>
          if k in old(docs) then r == Ok(()) && docs == old(docs) - {k}
          else r == Err(NotFound) && docs == old(docs)
      ensures r.Ok? ==> |docs| == |old(docs)| - 1
      ensures old(Normalised()) ==> Normalised()
    {
      var target := DeleteTarget(teachers, username, annId);
      if target.Err? {
        return Err(target.error);
      }
      var k := target.value;
      if k !in docs {
        return Err(NotFound);
      }
      docs := docs - {k};
      r := Ok(());
    }
  }

  /** Deleting the same id twice: the second call never succeeds, and after a
      successful first call it reports NotFound. */
  method DeleteTwice(store: AnnouncementStore, annId: string, username: Option<string>)
    returns (first: Result<()>, second: Result<()>)
    requires store.Valid()
    modifies store
    ensures second.Err?
    ensures first.Ok? ==> second == Err(NotFound)
    ensures first.Err? ==> second == first
  {
    first := store.Delete(annId, username);
    second := store.Delete(annId, username);
  }

  /** A created document is listed with the message as given and the expiration
      date normalised, and the listing reads back the date that was submitted. */
  method CreateThenList(store: AnnouncementStore, message: string, expiration: string,
                        username: Option<string>, createdAt: string, newId: string)
    returns (created: Result<View>, listing: seq<View>)
    requires store.Valid()
    requires IsObjectId(newId) && newId !in store.docs
    modifies store
    ensures created.Ok? ==> created.value in listing
    ensures created.Ok? ==> created.value.id == newId && created.value.ann.message == message
    ensures created.Ok? ==>
      && Parse(expiration).Some?
      && created.value.ann.expirationDate == Some(Format(Parse(expiration).value))
      && ExpirationOf(created.value.ann) == Parse(expiration)
  {
    created := store.Create(message, expiration, username, None, createdAt, newId);
    listing := store.ListAll();
    if created.Ok? {
      assert multiset(listing)[created.value] == 1;
    }
  }
}
