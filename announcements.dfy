/**
 * The announcement records, the decisions the router makes about them, and the
 * order it lists them in. Everything here is pure; the store that holds the
 * records and the endpoints that change it are in module `Store`.
 */
module Announcements {
  import opened Wrappers
  import opened Strings
  import opened Dates
  import opened ObjectIds

  /** A stored document, without its `_id`. The two dates are the strings as stored:
      documents written by other means may lack them or hold text that does not parse. */
  datatype Announcement = Announcement(
    message: string,
    startDate: Option<string>,
    expirationDate: Option<string>,
    createdAt: string,
    createdBy: string)

  /** `_to_dict`: the document as the API returns it, its `_id` rendered as `id`. */
  datatype View = View(id: string, ann: Announcement)

  datatype AuthFailure = MissingCredentials | UnknownTeacher

  datatype BadInput =
    | InvalidExpirationDate
    | InvalidStartDate
    | StartAfterExpiration
    | InvalidId
    | NoFields

  datatype Error = Unauthorized(auth: AuthFailure) | BadRequest(input: BadInput) | NotFound

  datatype Result<+T> = Ok(value: T) | Err(error: Error)

  /** The HTTP status each error is reported with. */
  function StatusCode(e: Error): (code: int)
    ensures code == 401 <==> e.Unauthorized?
    ensures code == 400 <==> e.BadRequest?
    ensures code == 404 <==> e.NotFound?
  {
    match e
    case Unauthorized(_) => 401
    case BadRequest(_) => 400
    case NotFound => 404
  }

  /** Python truthiness of an optional string: present and not empty. */
  predicate Truthy(s: Option<string>) {
    s.Some? && s.value != ""
  }

  // ----- the active window -----

  /** The expiration date the active filter reads; `None` when it is missing, empty or unparseable. */
  function ExpirationOf(a: Announcement): Option<Date> {
    if Truthy(a.expirationDate) then Parse(a.expirationDate.value) else None
  }

  /** The lower bound the active filter reads; a missing, empty or unparseable start is no bound. */
  function StartBoundOf(a: Announcement): Option<Date> {
    if Truthy(a.startDate) then Parse(a.startDate.value) else None
  }

  /** Whether the active filter keeps the record on day `today`. */
  predicate IsActive(a: Announcement, today: Date)
    ensures IsActive(a, today) ==>
      Truthy(a.expirationDate) && Parse(a.expirationDate.value).Some?
  {
    match ExpirationOf(a)
    case None => false
    case Some(exp) =>
      var start := StartBoundOf(a);
      if start.Some? && DateLt(today, start.value) then false
      else DateLe(today, exp)
  }

  /** The window is inclusive at both ends: a record whose start and expiration are
      given as formatted dates is active on its first day and on its last. */
  lemma ActiveOnBothBounds(a: Announcement, start: Date, exp: Date)
    requires ValidDate(start) && ValidDate(exp) && DateLe(start, exp)
    requires a.startDate == Some(Format(start)) && a.expirationDate == Some(Format(exp))
    ensures IsActive(a, start) && IsActive(a, exp)
    ensures forall d :: DateLt(d, start) ==> !IsActive(a, d)
    ensures forall d :: DateLt(exp, d) ==> !IsActive(a, d)
  {
    ParseFormat(start);
    ParseFormat(exp);
  }

  /** A record whose start parses but lies after its expiration is never active.
      Updates can create such a record, since they do not re-check the order. */
  lemma InvertedWindowNeverActive(a: Announcement, today: Date)
    requires StartBoundOf(a).Some? && ExpirationOf(a).Some?
    requires DateLt(ExpirationOf(a).value, StartBoundOf(a).value)
    ensures !IsActive(a, today)
  {
  }

  /** With today 2024-06-15, a record running from 2024-06-01 to 2024-06-30 is active. */
  lemma ActiveExampleCurrent(msg: string, createdAt: string, author: string)
    ensures var a := Announcement(msg, Some(Format(Date(2024, 6, 1))), Some(Format(Date(2024, 6, 30))), createdAt, author);
      IsActive(a, Date(2024, 6, 15))
  {
    ParseFormat(Date(2024, 6, 1));
    ParseFormat(Date(2024, 6, 30));
  }

  /** With today 2024-06-15, a record that expired on 2024-06-10 is not active. */
  lemma ActiveExampleExpired(msg: string, createdAt: string, author: string)
    ensures var a := Announcement(msg, Some(Format(Date(2024, 6, 1))), Some(Format(Date(2024, 6, 10))), createdAt, author);
      !IsActive(a, Date(2024, 6, 15))
  {
    ParseFormat(Date(2024, 6, 10));
  }

  /** With today 2024-06-15, a record that starts on 2024-07-01 is not active yet. */
  lemma ActiveExampleNotStarted(msg: string, createdAt: string, author: string)
    ensures var a := Announcement(msg, Some(Format(Date(2024, 7, 1))), Some(Format(Date(2024, 7, 30))), createdAt, author);
      !IsActive(a, Date(2024, 6, 15))
  {
    ParseFormat(Date(2024, 7, 1));
    ParseFormat(Date(2024, 7, 30));
  }

  /** A record as the create and update endpoints leave it: the expiration date is
      present and in `YYYY-MM-DD` form, the start date absent, empty or parseable. */
  predicate NormalRecord(a: Announcement) {
    && a.expirationDate.Some? && Parse(a.expirationDate.value).Some?
    && (Truthy(a.startDate) ==> Parse(a.startDate.value).Some?)
  }

  /** For records in normal form the active filter is a comparison of date strings:
      the window is `start <= today <= exp` in string order on `YYYY-MM-DD` text. */
  lemma ActiveByStrings(a: Announcement, today: Date)
    requires NormalRecord(a) && ValidDate(today)
    ensures IsActive(a, today) <==>
      (!Truthy(a.startDate) || StrLe(a.startDate.value, Format(today)))
      && StrLe(Format(today), a.expirationDate.value)
  {
    var exp := Parse(a.expirationDate.value).value;
    FormatParse(a.expirationDate.value);
    FormatOrder(today, exp);
    if Truthy(a.startDate) {
      var start := Parse(a.startDate.value).value;
      FormatParse(a.startDate.value);
      FormatOrder(start, today);
      FormatCmp(today, start);
      FormatCmp(start, today);
    }
  }

  // ----- ordering by expiration date -----

  /** The sort key: the stored expiration string, a missing one first (how MongoDB orders null). */
  function ExpKey(v: View): Option<string> {
    v.ann.expirationDate
  }

  predicate KeyLe(a: Option<string>, b: Option<string>) {
    a.None? || (b.Some? && StrLe(a.value, b.value))
  }

  lemma KeyLeTotal(a: Option<string>, b: Option<string>)
    ensures KeyLe(a, b) || KeyLe(b, a)
  {
    if a.Some? && b.Some? {
      CmpFlip(a.value, b.value);
    }
  }

  lemma KeyLeTrans(a: Option<string>, b: Option<string>, c: Option<string>)
    requires KeyLe(a, b) && KeyLe(b, c)
    ensures KeyLe(a, c)
  {
    if a.Some? {
      CmpTrans(a.value, b.value, c.value);
    }
  }

  predicate SortedByExpiration(s: seq<View>) {
    forall i, j :: 0 <= i < j < |s| ==> KeyLe(ExpKey(s[i]), ExpKey(s[j]))
  }

  /** Both expiration dates read, and the first is not after the second. */
  predicate ExpiresNoLater(a: Announcement, b: Announcement) {
    ExpirationOf(a).Some? && ExpirationOf(b).Some? && DateLe(ExpirationOf(a).value, ExpirationOf(b).value)
  }

  /** For records in normal form, a list sorted by expiration string is sorted by
      expiration date: string order on stored dates is chronological order. */
  lemma SortedIsChronological(s: seq<View>)
    requires SortedByExpiration(s)
    requires forall i :: 0 <= i < |s| ==> NormalRecord(s[i].ann)
    ensures forall i, j :: 0 <= i < j < |s| ==> ExpiresNoLater(s[i].ann, s[j].ann)
  {
    forall i, j | 0 <= i < j < |s|
      ensures ExpiresNoLater(s[i].ann, s[j].ann)
    {
      var a, b := ExpKey(s[i]).value, ExpKey(s[j]).value;
      FormatParse(a);
      FormatParse(b);
      FormatOrder(Parse(a).value, Parse(b).value);
    }
  }

  /** Inserts `x` after every element whose key is not above its own, keeping the list sorted. */
  method InsertByExpiration(ys: seq<View>, x: View) returns (zs: seq<View>)
    requires SortedByExpiration(ys)
    ensures SortedByExpiration(zs)
    ensures multiset(zs) == multiset(ys) + multiset{x}
  {
    var j := |ys|;
    while j > 0 && !KeyLe(ExpKey(ys[j - 1]), ExpKey(x))
      invariant 0 <= j <= |ys|
      invariant forall t :: j <= t < |ys| ==> KeyLe(ExpKey(x), ExpKey(ys[t]))
    {
      KeyLeTotal(ExpKey(ys[j - 1]), ExpKey(x));
      j := j - 1;
    }
    SortedSplice(ys, j, x);
    zs := ys[..j] + [x] + ys[j..];
    assert ys == ys[..j] + ys[j..];
  }

  /** Placing `x` between a prefix whose keys are not above its own and a suffix whose
      keys are not below it keeps a sorted list sorted. */
  lemma SortedSplice(ys: seq<View>, j: nat, x: View)
    requires SortedByExpiration(ys) && j <= |ys|
    requires j > 0 ==> KeyLe(ExpKey(ys[j - 1]), ExpKey(x))
    requires forall t :: j <= t < |ys| ==> KeyLe(ExpKey(x), ExpKey(ys[t]))
    ensures SortedByExpiration(ys[..j] + [x] + ys[j..])
  {
    var zs := ys[..j] + [x] + ys[j..];
    forall p, q | 0 <= p < q < |zs|
      ensures KeyLe(ExpKey(zs[p]), ExpKey(zs[q]))
    {
      if q < j {
        assert zs[p] == ys[p] && zs[q] == ys[q];
      } else if q == j {
        assert zs[p] == ys[p] && zs[q] == x;
        if p < j - 1 {
          KeyLeTrans(ExpKey(ys[p]), ExpKey(ys[j - 1]), ExpKey(x));
        }
      } else if p < j {
        assert zs[p] == ys[p] && zs[q] == ys[q - 1];
      } else if p == j {
        assert zs[p] == x && zs[q] == ys[q - 1];
      } else {
        assert zs[p] == ys[p - 1] && zs[q] == ys[q - 1];
      }
    }
  }

  /** `out.sort(key=expiration_date)`: a sorted permutation of the list. */
  method SortByExpiration(xs: seq<View>) returns (ys: seq<View>)
    ensures SortedByExpiration(ys)
    ensures multiset(ys) == multiset(xs)
  {
    ys := [];
    var i := 0;
    while i < |xs|
      invariant 0 <= i <= |xs|
      invariant SortedByExpiration(ys)
      invariant multiset(ys) == multiset(xs[..i])
    {
      ys := InsertByExpiration(ys, xs[i]);
      assert xs[..i + 1] == xs[..i] + [xs[i]];
      i := i + 1;
    }
    assert xs[..|xs|] == xs;
  }

  // ----- validation of the mutating endpoints -----

  /** A username the teacher directory knows. */
  predicate IsTeacher(teachers: set<string>, username: Option<string>) {
    Truthy(username) && username.value in teachers
  }

  /** `_require_teacher`: `None` when the caller may proceed, else why not. */
  function RequireTeacher(teachers: set<string>, username: Option<string>): (r: Option<AuthFailure>)
    ensures r.None? <==> IsTeacher(teachers, username)
    ensures r == Some(MissingCredentials) <==> !Truthy(username)
  {
    if !Truthy(username) then Some(MissingCredentials)
    else if username.value !in teachers then Some(UnknownTeacher)
    else None
  }

  /** `create_announcement` up to the insert: the first failing check in the order the
      endpoint makes them, or the document it inserts. */
  function NewAnnouncement(teachers: set<string>, username: Option<string>, message: string,
                           expiration: string, start: Option<string>, createdAt: string): (r: Result<Announcement>)
    ensures r.Err? ==> r.error.Unauthorized? || r.error.BadRequest?
    ensures r.Err? && r.error.Unauthorized? <==> !IsTeacher(teachers, username)
    ensures r == Err(BadRequest(InvalidExpirationDate)) <==>
      IsTeacher(teachers, username) && Parse(expiration).None?
    ensures r == Err(BadRequest(InvalidStartDate)) <==>
      IsTeacher(teachers, username) && Parse(expiration).Some?
      && Truthy(start) && Parse(start.value).None?
    ensures r == Err(BadRequest(StartAfterExpiration)) <==>
      IsTeacher(teachers, username) && Parse(expiration).Some?
      && Truthy(start) && Parse(start.value).Some?
      && DateLt(Parse(expiration).value, Parse(start.value).value)
    ensures r.Ok? <==>
      IsTeacher(teachers, username) && Parse(expiration).Some?
      && (Truthy(start) ==>
            Parse(start.value).Some? && !DateLt(Parse(expiration).value, Parse(start.value).value))
    ensures r.Ok? ==>
      && r.value.message == message
      && r.value.startDate == start
      && r.value.expirationDate == Some(Format(Parse(expiration).value))
      && r.value.createdAt == createdAt
      && r.value.createdBy == username.value
    ensures r.Ok? ==> Parse(r.value.expirationDate.value) == Parse(expiration) && NormalRecord(r.value)
  {
    var auth := RequireTeacher(teachers, username);
    if auth.Some? then Err(Unauthorized(auth.value))
    else match Parse(expiration)
      case None => Err(BadRequest(InvalidExpirationDate))
      case Some(exp) =>
        if Truthy(start) && Parse(start.value).None? then Err(BadRequest(InvalidStartDate))
        else if Truthy(start) && DateLt(exp, Parse(start.value).value) then Err(BadRequest(StartAfterExpiration))
        else
          ParseFormat(exp);
          Ok(Announcement(message, start, Some(Format(exp)), createdAt,
                          if Truthy(username) then username.value else "unknown"))
  }

  /** A month 13 is no date: the create is refused with 400 and nothing is inserted. */
  lemma CreateRejectsImpossibleDate(teachers: set<string>, username: Option<string>, message: string,
                                    start: Option<string>, createdAt: string)
    requires IsTeacher(teachers, username)
    ensures NewAnnouncement(teachers, username, message, "2024-13-40", start, createdAt)
            == Err(BadRequest(InvalidExpirationDate))
  {
  }

  /** A start after the expiration is refused at creation: 2024-07-01 against 2024-06-01. */
  lemma CreateRejectsInvertedWindow(teachers: set<string>, username: Option<string>, message: string,
                                    createdAt: string)
    requires IsTeacher(teachers, username)
    ensures NewAnnouncement(teachers, username, message, Format(Date(2024, 6, 1)), Some(Format(Date(2024, 7, 1))), createdAt)
            == Err(BadRequest(StartAfterExpiration))
  {
    ParseFormat(Date(2024, 6, 1));
    ParseFormat(Date(2024, 7, 1));
  }

  /** The `$set` document of an update: the fields to overwrite, `None` for those left alone. */
  datatype Patch = Patch(message: Option<string>, expirationDate: Option<string>, startDate: Option<string>)

  /** `update_one(..., {"$set": patch})` on one document. */
  function Merge(a: Announcement, p: Patch): (b: Announcement)
    ensures b.createdAt == a.createdAt && b.createdBy == a.createdBy
  {
    Announcement(
      if p.message.Some? then p.message.value else a.message,
      if p.startDate.Some? then p.startDate else a.startDate,
      if p.expirationDate.Some? then p.expirationDate else a.expirationDate,
      a.createdAt,
      a.createdBy)
  }

  /** Setting the same fields again changes nothing: a repeated update is idempotent. */
  lemma MergeIdempotent(a: Announcement, p: Patch)
    ensures Merge(Merge(a, p), p) == Merge(a, p)
  {
  }

  /** `update_announcement` up to the write: the first failing check in the order the
      endpoint makes them, or the key to update and the fields to set. */
  function UpdatePlan(teachers: set<string>, username: Option<string>, annId: string,
                      message: Option<string>, expiration: Option<string>, start: Option<string>): (r: Result<(string, Patch)>)
    ensures r.Err? ==> r.error.Unauthorized? || r.error.BadRequest?
    ensures r.Err? && r.error.Unauthorized? <==> !IsTeacher(teachers, username)
    ensures r == Err(BadRequest(InvalidId)) <==>
      IsTeacher(teachers, username) && ParseId(annId).None?
    ensures r == Err(BadRequest(InvalidExpirationDate)) <==>
      IsTeacher(teachers, username) && ParseId(annId).Some?
      && expiration.Some? && Parse(expiration.value).None?
    ensures r == Err(BadRequest(InvalidStartDate)) <==>
      IsTeacher(teachers, username) && ParseId(annId).Some?
      && (expiration.Some? ==> Parse(expiration.value).Some?)
      && start.Some? && Parse(start.value).None?
    ensures r == Err(BadRequest(NoFields)) <==>
      IsTeacher(teachers, username) && ParseId(annId).Some?
      && message.None? && expiration.None? && start.None?
    ensures r.Ok? <==>
      IsTeacher(teachers, username) && ParseId(annId).Some?
      && (expiration.Some? ==> Parse(expiration.value).Some?)
      && (start.Some? ==> Parse(start.value).Some?)
      && (message.Some? || expiration.Some? || start.Some?)
    ensures r.Ok? ==>
      && r.value.0 == ParseId(annId).value
      && r.value.1.message == message
      && r.value.1.startDate == start
      && r.value.1.expirationDate ==
           (if expiration.Some? then Some(Format(Parse(expiration.value).value)) else None)
    ensures r.Ok? ==> forall a :: NormalRecord(a) ==> NormalRecord(Merge(a, r.value.1))
  {
    var auth := RequireTeacher(teachers, username);
    if auth.Some? then Err(Unauthorized(auth.value))
    else match ParseId(annId)
      case None => Err(BadRequest(InvalidId))
      case Some(key) =>
        if expiration.Some? && Parse(expiration.value).None? then Err(BadRequest(InvalidExpirationDate))
        else if start.Some? && Parse(start.value).None? then Err(BadRequest(InvalidStartDate))
        else if message.None? && expiration.None? && start.None? then Err(BadRequest(NoFields))
        else
          NormalisedExpirationParses(expiration);
          var exp := if expiration.Some? then Some(Format(Parse(expiration.value).value)) else None;
          Ok((key, Patch(message, exp, start)))
  }

  /** A supplied expiration date that parses is stored normalised, and the stored text parses too. */
  lemma NormalisedExpirationParses(expiration: Option<string>)
    requires expiration.Some? ==> Parse(expiration.value).Some?
    ensures expiration.Some? ==> Parse(Format(Parse(expiration.value).value)) == Parse(expiration.value)
  {
    if expiration.Some? {
      ParseFormat(Parse(expiration.value).value);
    }
  }

  /** An update does not re-check the window: setting the start of a record that expires
      on 2024-06-01 to 2024-07-01 is accepted, and leaves a record that is never active. */
  lemma UpdateMayInvertWindow(teachers: set<string>, username: Option<string>, annId: string,
                              a: Announcement, today: Date)
    requires IsTeacher(teachers, username) && ParseId(annId).Some?
    requires a.expirationDate == Some(Format(Date(2024, 6, 1)))
    ensures var r := UpdatePlan(teachers, username, annId, None, None, Some(Format(Date(2024, 7, 1))));
      && r.Ok?
      && var b := Merge(a, r.value.1);
      && StartBoundOf(b).Some? && ExpirationOf(b).Some?
      && DateLt(ExpirationOf(b).value, StartBoundOf(b).value)
      && !IsActive(b, today)
  {
    ParseFormat(Date(2024, 6, 1));
    ParseFormat(Date(2024, 7, 1));
  }

  /** `delete_announcement` up to the delete: the first failing check, or the key to remove. */
  function DeleteTarget(teachers: set<string>, username: Option<string>, annId: string): (r: Result<string>)
    ensures r.Err? ==> r.error.Unauthorized? || r == Err(BadRequest(InvalidId))
    ensures r.Err? && r.error.Unauthorized? <==> !IsTeacher(teachers, username)
    ensures r.Ok? <==> IsTeacher(teachers, username) && ParseId(annId).Some?
    ensures r.Ok? ==> r.value == ParseId(annId).value
  {
    var auth := RequireTeacher(teachers, username);
    if auth.Some? then Err(Unauthorized(auth.value))
    else match ParseId(annId)
      case None => Err(BadRequest(InvalidId))
      case Some(key) => Ok(key)
  }
}
