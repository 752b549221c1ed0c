/**
 * The administration API (src/API/NewsletterEndpoint.php): the paged contact list with its filters,
 * the analysis and bulk import of pasted addresses, switching a contact's authorization, reading and
 * saving the auto-remove settings and the CSV export. The endpoint works on the manager's table;
 * what the database would sort is handed in as an ordering of that table, and the date formatter
 * (DateTime::format('Y-m-d')) is a function parameter.
 */
module Endpoint {
  import opened Wrappers
  import opened Builtins
  import opened Entity
  import opened Helpers
  import opened Manager

  // ---------------------------------------------------------------------------------------------
  // The contact list (actionDefault)

  const CanceledState := "canceled"
  const AuthorizedState := "authorized"
  const DisabledState := "disabled"

  /** The `authorized` column of a list item: canceled wins, then the confirmation flag decides. */
  function State(canceled: bool, authorizedByUser: bool): string {
    if canceled then CanceledState else if authorizedByUser then AuthorizedState else DisabledState
  }

  /** The optional filters: part of the address, the source (or '--null--'), and a state. */
  datatype ListFilter = ListFilter(email: Option<string>, source: Option<string>, state: Option<string>)

  /**
   * The WHERE clause the filters build. The address filter is LIKE '%email%' (read here as a
   * substring test); '--null--' asks for a missing source, any other source for exactly that one;
   * 'canceled' asks for canceled contacts, 'authorized' and 'disabled' look only at the flag, and
   * any other state value adds no condition.
   */
  predicate Passes(f: ListFilter, c: Record) {
    && (f.email.Some? ==> Contains(c.email, f.email.value))
    && (f.source.Some? ==> if f.source.value == NullSourceKey then c.source.None? else c.source == f.source)
    && (f.state == Some(CanceledState) ==> c.canceled)
    && (f.state == Some(AuthorizedState) ==> c.authorizedByUser)
    && (f.state == Some(DisabledState) ==> !c.authorizedByUser)
  }

  /** The rows a filtered query returns, in the order the table is read. */
  function Selected(rows: seq<Row>, f: ListFilter): (r: seq<Row>)
    ensures |r| <= |rows|
    ensures forall row :: row in r ==> row in rows && Passes(f, row.contact)
  {
    if rows == [] then []
    else
      var init := Selected(rows[..|rows| - 1], f);
      if Passes(f, rows[|rows| - 1].contact) then init + [rows[|rows| - 1]] else init
  }

  /** Every row that passes the filter is selected. */
  lemma {:induction false} SelectedComplete(rows: seq<Row>, f: ListFilter, row: Row)
    requires row in rows && Passes(f, row.contact)
    ensures row in Selected(rows, f)
    decreases |rows|
  {
    if row != rows[|rows| - 1] {
      assert row in rows[..|rows| - 1];
      SelectedComplete(rows[..|rows| - 1], f, row);
    }
  }

  /** Selection keeps each row as often as the table holds it, if it passes, and drops it otherwise. */
  lemma {:induction false} SelectedMultiplicity(rows: seq<Row>, f: ListFilter, row: Row)
    ensures multiset(Selected(rows, f))[row] == if Passes(f, row.contact) then multiset(rows)[row] else 0
    decreases |rows|
  {
    if rows != [] {
      var init := rows[..|rows| - 1];
      SelectedMultiplicity(init, f, row);
      assert rows == init + [rows[|rows| - 1]];
    }
  }

  /** The count of a filtered query does not depend on the order in which the table is read. */
  lemma CountIgnoresOrder(a: seq<Row>, b: seq<Row>, f: ListFilter)
    requires multiset(a) == multiset(b)
    ensures multiset(Selected(a, f)) == multiset(Selected(b, f))
    ensures |Selected(a, f)| == |Selected(b, f)|
  {
    forall row | true ensures multiset(Selected(a, f))[row] == multiset(Selected(b, f))[row] {
      SelectedMultiplicity(a, f, row);
      SelectedMultiplicity(b, f, row);
    }
    assert multiset(Selected(a, f)) == multiset(Selected(b, f));
    assert |multiset(Selected(a, f))| == |Selected(a, f)|;
    assert |multiset(Selected(b, f))| == |Selected(b, f)|;
  }

  /** Selection keeps the relative order of the rows it keeps. */
  lemma {:induction false} SelectedKeepsOrder(rows: seq<Row>, f: ListFilter, before: (Row, Row) -> bool)
    requires forall i, j :: 0 <= i < j < |rows| ==> before(rows[i], rows[j])
    ensures forall i, j :: 0 <= i < j < |Selected(rows, f)| ==> before(Selected(rows, f)[i], Selected(rows, f)[j])
    decreases |rows|
  {
    if rows != [] {
      var init := rows[..|rows| - 1];
      SelectedKeepsOrder(init, f, before);
      var s := Selected(rows, f);
      forall i, j | 0 <= i < j < |s| ensures before(s[i], s[j]) {
        if j == |Selected(init, f)| {
          assert s[i] in init;
          var k :| 0 <= k < |init| && init[k] == s[i];
        }
      }
    }
  }

  /** setFirstResult(offset)->setMaxResults(limit): at most `limit` rows from position `offset` on. */
  function Window<T>(s: seq<T>, offset: nat, limit: nat): (r: seq<T>)
    ensures |r| <= limit
    ensures forall k :: 0 <= k < |r| ==> offset + k < |s| && r[k] == s[offset + k]
    ensures offset + limit <= |s| ==> |r| == limit
    ensures offset >= |s| ==> r == []
  {
    var from := if offset <= |s| then offset else |s|;
    var to := if offset + limit <= |s| then offset + limit else |s|;
    s[from..to]
  }

  /** One more selected row lands on the page exactly when its position falls inside the window. */
  lemma WindowAppend<T>(s: seq<T>, x: T, offset: nat, limit: nat)
    ensures Window(s + [x], offset, limit)
            == Window(s, offset, limit) + (if offset <= |s| < offset + limit then [x] else [])
  {
    var t := s + [x];
    if offset <= |s| < offset + limit {
      assert t[offset..|t|] == s[offset..|s|] + [x];
    } else if offset + limit <= |s| {
      assert t[offset..offset + limit] == s[offset..offset + limit];
    }
  }

  /** Pages of a positive size tile the selection: the k-th selected row is on page k / limit + 1. */
  lemma PagesCoverSelection<T>(s: seq<T>, limit: nat, k: nat)
    requires limit > 0 && k < |s|
    ensures var page := k / limit + 1;
      (page - 1) * limit <= k && k % limit < |Window(s, (page - 1) * limit, limit)|
      && Window(s, (page - 1) * limit, limit)[k % limit] == s[k]
  {
    var page := k / limit + 1;
    assert (page - 1) * limit + k % limit == k;
  }

  /** One entry of the `list` array of the response. */
  datatype ListItem = ListItem(id: Id, email: string, source: Option<string>, state: string, isActive: bool,
                               authorizedDate: Option<Time>, insertedDate: Time)

  function ItemOf(row: Row): ListItem {
    var c := row.contact;
    ListItem(row.id, c.email, c.source, State(c.canceled, c.authorizedByUser),
             c.authorizedByUser && !c.canceled, c.authorizedDate, c.insertedDate)
  }

  /** An item's `isActive` is Newsletter::isActive(), and holds exactly when its state is 'authorized'. */
  lemma ItemStateAgreesWithActivity(row: Row)
    ensures ItemOf(row).isActive == row.contact.IsActive()
    ensures ItemOf(row).isActive <==> ItemOf(row).state == AuthorizedState
    ensures ItemOf(row).state == CanceledState <==> row.contact.canceled
  {
  }

  /**
   * The state filters and the state column disagree for a canceled, confirmed contact: it is listed
   * under the 'authorized' filter, yet its state reads 'canceled'.
   */
  lemma CanceledContactUnderAuthorizedFilter(row: Row)
    requires row.contact.canceled && row.contact.authorizedByUser
    ensures Passes(ListFilter(None, None, Some(AuthorizedState)), row.contact)
    ensures ItemOf(row).state == CanceledState
  {
  }

  /**
   * The source filter '--null--', which getSourceTypes() labels '(unknown)' together with the empty
   * and the '0' source, lists only contacts whose source is missing.
   */
  lemma UnknownSourceFilterMissesFalsySources(row: Row)
    requires row.contact.source == Some("") || row.contact.source == Some("0")
    ensures SourceKey(row.contact.source) == NullSourceKey
    ensures !Passes(ListFilter(None, Some(NullSourceKey), None), row.contact)
  {
  }

  /** No confirmation date sorts below every date (SQL's NULL is the lowest value). */
  predicate AuthorizedNotBefore(a: Row, b: Row) {
    b.contact.authorizedDate.None?
    || (a.contact.authorizedDate.Some? && a.contact.authorizedDate.value >= b.contact.authorizedDate.value)
  }

  /** An order the database may return for ORDER BY authorizedDate DESC; ties come in any order. */
  ghost predicate ListingOrder(ordered: seq<Row>, rows: seq<Row>) {
    && multiset(ordered) == multiset(rows)
    && forall i, j :: 0 <= i < j < |ordered| ==> AuthorizedNotBefore(ordered[i], ordered[j])
  }

  /**
   * A page lists stored contacts that pass the filters, the most recently confirmed first and the
   * never confirmed last.
   */
  lemma PageRowsAreStored(ordered: seq<Row>, rows: seq<Row>, f: ListFilter, offset: nat, limit: nat)
    requires ListingOrder(ordered, rows)
    ensures var page := Window(Selected(ordered, f), offset, limit);
      && (forall k :: 0 <= k < |page| ==> page[k] in rows && Passes(f, page[k].contact))
      && (forall i, j :: 0 <= i < j < |page| ==> AuthorizedNotBefore(page[i], page[j]))
  {
    var s := Selected(ordered, f);
    var page := Window(s, offset, limit);
    SelectedKeepsOrder(ordered, f, AuthorizedNotBefore);
    forall k | 0 <= k < |page| ensures page[k] in rows && Passes(f, page[k].contact) {
      assert page[k] == s[offset + k];
      assert page[k] in multiset(ordered);
    }
    forall i, j | 0 <= i < j < |page| ensures AuthorizedNotBefore(page[i], page[j]) {
      assert page[i] == s[offset + i] && page[j] == s[offset + j];
    }
  }

  /** The database refuses a negative OFFSET or LIMIT. */
  datatype ListError = NegativeWindow(offset: int, limit: int)

  // ---------------------------------------------------------------------------------------------
  // Import (postImport)

  /** The `$used` lookup of postImport(): the addresses stored exactly as written. */
  function StoredEmails(rows: seq<Row>): (s: set<string>)
    ensures forall e :: e in s <==> EmailStored(rows, e)
  {
    set row | row in rows :: row.contact.email
  }

  /**
   * The addresses postImport() persists among the first n given ones, each with the token its new
   * entity draws: in order, those not stored exactly as written.
   */
  function ImportQueue(unique: seq<string>, tokens: seq<string>, stored: set<string>, n: nat): (q: seq<(string, string)>)
    requires |tokens| == |unique| && n <= |unique|
    ensures |q| <= n
  {
    if n == 0 then []
    else
      var init := ImportQueue(unique, tokens, stored, n - 1);
      if unique[n - 1] in stored then init else init + [(unique[n - 1], tokens[n - 1])]
  }

  /** One more given address: it is queued exactly when it is not stored as written. */
  lemma ImportQueueNext(unique: seq<string>, tokens: seq<string>, stored: set<string>, j: nat)
    requires |tokens| == |unique| && j < |unique|
    ensures ImportQueue(unique, tokens, stored, j + 1) ==
      if unique[j] in stored then ImportQueue(unique, tokens, stored, j)
      else ImportQueue(unique, tokens, stored, j) + [(unique[j], tokens[j])]
  {
  }

  /** Exactly the addresses not stored as written are queued, each with its own token. */
  lemma {:induction false} ImportQueueMembers(unique: seq<string>, tokens: seq<string>, stored: set<string>, n: nat, j: nat)
    requires |tokens| == |unique| && j < n <= |unique|
    ensures unique[j] !in stored ==> (unique[j], tokens[j]) in ImportQueue(unique, tokens, stored, n)
    ensures unique[j] in stored ==> forall t :: (unique[j], t) !in ImportQueue(unique, tokens, stored, n)
    decreases n
  {
    if j < n - 1 {
      ImportQueueMembers(unique, tokens, stored, n - 1, j);
    } else if unique[j] in stored {
      ImportQueueOrigins(unique, tokens, stored, n - 1);
    }
  }

  /** Every queued pair is a given address not stored as written, with the token at its position. */
  lemma {:induction false} ImportQueueOrigins(unique: seq<string>, tokens: seq<string>, stored: set<string>, n: nat)
    requires |tokens| == |unique| && n <= |unique|
    ensures forall x :: x in ImportQueue(unique, tokens, stored, n) ==>
      exists j :: 0 <= j < n && x == (unique[j], tokens[j]) && unique[j] !in stored
    decreases n
  {
    if n > 0 {
      ImportQueueOrigins(unique, tokens, stored, n - 1);
    }
  }

  /** The queue of fewer addresses is a prefix of the queue of more. */
  lemma {:induction false} ImportQueuePrefix(unique: seq<string>, tokens: seq<string>, stored: set<string>, j: nat, n: nat)
    requires |tokens| == |unique| && j <= n <= |unique|
    ensures var q := ImportQueue(unique, tokens, stored, n);
      var p := ImportQueue(unique, tokens, stored, j);
      |p| <= |q| && q[..|p|] == p
    decreases n
  {
    if j < n {
      ImportQueuePrefix(unique, tokens, stored, j, n - 1);
      var q := ImportQueue(unique, tokens, stored, n);
      var qn := ImportQueue(unique, tokens, stored, n - 1);
      var p := ImportQueue(unique, tokens, stored, j);
      assert q[..|qn|] == qn;
      assert q[..|p|] == qn[..|p|];
    }
  }

  /**
   * The entities constructed for the queue, up to the first address the constructor refuses, and
   * the refusal if there is one.
   */
  function Constructed(queue: seq<(string, string)>, st: Stamp, isEmail: string -> bool): (r: (seq<Record>, Option<EntityError>))
    ensures |r.0| <= |queue|
    ensures r.1.None? ==> |r.0| == |queue|
  {
    if queue == [] then ([], None)
    else
      var n := |queue| - 1;
      var init := Constructed(queue[..n], st, isEmail);
      if init.1.Some? then init
      else match NormalizeEmail(queue[n].0, isEmail)
        case Err(e) => (init.0, Some(e))
        case Ok(email) => (init.0 + [Initial(email, st.source, st.clientIp, queue[n].1, st.now)], None)
  }

  /**
   * Each constructed entity is the fresh contact for its queued address (lower-cased) and token;
   * a refusal is the constructor's error for the first address it cannot accept.
   */
  lemma {:induction false} ConstructedContents(queue: seq<(string, string)>, st: Stamp, isEmail: string -> bool)
    ensures var r := Constructed(queue, st, isEmail);
      && (forall k :: 0 <= k < |r.0| ==>
            NormalizeEmail(queue[k].0, isEmail).Ok?
            && r.0[k] == Initial(StrToLower(queue[k].0), st.source, st.clientIp, queue[k].1, st.now))
      && (r.1.Some? ==> |r.0| < |queue| && NormalizeEmail(queue[|r.0|].0, isEmail) == Err(r.1.value))
    decreases |queue|
  {
    if queue != [] {
      var n := |queue| - 1;
      ConstructedContents(queue[..n], st, isEmail);
      var init := Constructed(queue[..n], st, isEmail);
      assert forall k :: 0 <= k < n ==> queue[..n][k] == queue[k];
    }
  }

  /** Constructing one more queued address. */
  lemma ConstructedStep(queue: seq<(string, string)>, x: (string, string), st: Stamp, isEmail: string -> bool,
                        recs: seq<Record>)
    requires Constructed(queue, st, isEmail) == (recs, None)
    ensures NormalizeEmail(x.0, isEmail).Ok? ==>
      Constructed(queue + [x], st, isEmail) == (recs + [Initial(StrToLower(x.0), st.source, st.clientIp, x.1, st.now)], None)
    ensures NormalizeEmail(x.0, isEmail).Err? ==>
      Constructed(queue + [x], st, isEmail) == (recs, Some(NormalizeEmail(x.0, isEmail).error))
  {
    assert (queue + [x])[..|queue|] == queue;
  }

  /**
   * Constructing a longer queue extends what a prefix constructed, and a refusal in the prefix is
   * final.
   */
  lemma {:induction false} ConstructedPrefix(queue: seq<(string, string)>, m: nat, st: Stamp, isEmail: string -> bool)
    requires m <= |queue|
    ensures var p := Constructed(queue[..m], st, isEmail);
      var q := Constructed(queue, st, isEmail);
      && |p.0| <= |q.0| && q.0[..|p.0|] == p.0
      && (p.1.Some? ==> q == p)
    decreases |queue|
  {
    if m < |queue| {
      var n := |queue| - 1;
      ConstructedPrefix(queue[..n], m, st, isEmail);
      assert queue[..n][..m] == queue[..m];
      var p := Constructed(queue[..m], st, isEmail);
      var qn := Constructed(queue[..n], st, isEmail);
      var q := Constructed(queue, st, isEmail);
      assert q.0[..|qn.0|] == qn.0;
      assert q.0[..|p.0|] == qn.0[..|p.0|];
    } else {
      assert queue[..m] == queue;
    }
  }

  /** A refused constructor call decides the outcome for the whole queue. */
  lemma ConstructionRefused(unique: seq<string>, ts: seq<string>, stored: set<string>, j: nat, st: Stamp,
                            isEmail: string -> bool, recs: seq<Record>)
    requires |ts| == |unique| && j < |unique|
    requires Constructed(ImportQueue(unique, ts, stored, j), st, isEmail) == (recs, None)
    requires unique[j] !in stored && NormalizeEmail(unique[j], isEmail).Err?
    ensures Constructed(ImportQueue(unique, ts, stored, |unique|), st, isEmail)
            == (recs, Some(NormalizeEmail(unique[j], isEmail).error))
  {
    var prior := ImportQueue(unique, ts, stored, j);
    var queue := ImportQueue(unique, ts, stored, j + 1);
    ConstructedStep(prior, (unique[j], ts[j]), st, isEmail, recs);
    ImportQueuePrefix(unique, ts, stored, j + 1, |unique|);
    ConstructedPrefix(ImportQueue(unique, ts, stored, |unique|), |queue|, st, isEmail);
  }

  /** What was constructed for the first j addresses begins what is constructed for all of them. */
  lemma ConstructedSoFar(unique: seq<string>, ts: seq<string>, stored: set<string>, j: nat, st: Stamp,
                         isEmail: string -> bool, recs: seq<Record>)
    requires |ts| == |unique| && j <= |unique|
    requires Constructed(ImportQueue(unique, ts, stored, j), st, isEmail) == (recs, None)
    ensures var whole := Constructed(ImportQueue(unique, ts, stored, |unique|), st, isEmail).0;
      |recs| <= |whole| && whole[..|recs|] == recs
  {
    ImportQueuePrefix(unique, ts, stored, j, |unique|);
    var queue := ImportQueue(unique, ts, stored, j);
    ConstructedPrefix(ImportQueue(unique, ts, stored, |unique|), |queue|, st, isEmail);
  }

  /** Once a prefix of the entities cannot be inserted, neither can all of them. */
  lemma FlushRefused(unique: seq<string>, ts: seq<string>, stored: set<string>, base: seq<Row>, baseId: Id, j: nat,
                     st: Stamp, isEmail: string -> bool, recs: seq<Record>)
    requires |ts| == |unique| && j <= |unique|
    requires Constructed(ImportQueue(unique, ts, stored, j), st, isEmail) == (recs, None)
    requires InsertAll(base, baseId, recs) == None
    ensures var whole := Constructed(ImportQueue(unique, ts, stored, |unique|), st, isEmail).0;
      |recs| <= |whole| && whole[..|recs|] == recs && InsertAll(base, baseId, whole) == None
  {
    ConstructedSoFar(unique, ts, stored, j, st, isEmail, recs);
    var whole := Constructed(ImportQueue(unique, ts, stored, |unique|), st, isEmail).0;
    assert whole == recs + whole[|recs|..];
    InsertAllAppend(base, baseId, recs, whole[|recs|..]);
  }

  /**
   * postImport() as a value, from entity m on, with the table at (rows, nextId) once the batches
   * before m are stored. While a full batch of 101 remains it is flushed, and a broken unique
   * column fails the request with the table as it stood. After the last full batch, a refused
   * address fails the request with its error and the rest is lost; otherwise the rest goes in the
   * final flush.
   */
  function ImportFrom(rows: seq<Row>, nextId: Id, recs: seq<Record>, refusal: Option<EntityError>, m: nat)
    : (Outcome<Error>, seq<Row>, Id)
    requires m <= |recs|
    decreases |recs| - m
  {
    if m + 101 <= |recs| then
      match InsertAll(rows, nextId, recs[m..m + 101])
      case None => (Fail(ConstraintViolation), rows, nextId)
      case Some(next) => ImportFrom(next.0, next.1, recs, refusal, m + 101)
    else if refusal.Some? then (Fail(Invalid(refusal.value)), rows, nextId)
    else
      match InsertAll(rows, nextId, recs[m..])
      case None => (Fail(ConstraintViolation), rows, nextId)
      case Some(next) => (Pass, next.0, next.1)
  }

  /**
   * The outcome of postImport() and the table it leaves, for the entities `recs` constructed from the
   * queue and the constructor's refusal, if any.
   */
  function ImportOutcome(base: seq<Row>, baseId: Id, recs: seq<Record>, refusal: Option<EntityError>)
    : (Outcome<Error>, seq<Row>, Id)
  {
    ImportFrom(base, baseId, recs, refusal, 0)
  }

  /**
   * What the outcome (o, rows, nextId) of postImport() means. It passes exactly when nothing was
   * refused and all entities fit, and then they are all stored. A refused address fails the request
   * with the constructor's error, after the whole batches of 101 before it were stored, whenever
   * those batches fit. A broken unique column fails it at the first batch that does not fit, after
   * the batches before it were stored.
   */
  ghost predicate ImportResult(base: seq<Row>, baseId: Id, recs: seq<Record>, refusal: Option<EntityError>,
                               o: Outcome<Error>, rows: seq<Row>, nextId: Id)
  {
    && (o.Pass? || o == Fail(ConstraintViolation) || (o.error.Invalid? && refusal == Some(o.error.entity)))
    && (o == Pass <==> refusal.None? && InsertAll(base, baseId, recs).Some?)
    && (o == Pass ==> InsertAll(base, baseId, recs) == Some((rows, nextId)))
    && (refusal.Some? && InsertAll(base, baseId, recs[..|recs| / 101 * 101]).Some? ==> o == Fail(Invalid(refusal.value)))
    && (o.Fail? && o.error.Invalid? ==> InsertAll(base, baseId, recs[..|recs| / 101 * 101]) == Some((rows, nextId)))
    && (o == Fail(ConstraintViolation) ==> exists m :: FailedFlushAt(base, baseId, recs, refusal, m, rows, nextId))
  }

  /**
   * The flush of the batch that starts at entity m broke a unique column, after the m entities
   * before it were stored as (rows, nextId): a full batch of 101, or, when nothing was refused and
   * fewer than 101 are left, the final flush of the rest.
   */
  ghost predicate FailedFlushAt(base: seq<Row>, baseId: Id, recs: seq<Record>, refusal: Option<EntityError>, m: int,
                                rows: seq<Row>, nextId: Id)
  {
    && 0 <= m <= |recs| && m % 101 == 0 && InsertAll(base, baseId, recs[..m]) == Some((rows, nextId))
    && if m + 101 <= |recs| then InsertAll(base, baseId, recs[..m + 101]) == None
       else refusal.None? && InsertAll(base, baseId, recs) == None
  }

  /** A flush refused for some entities is refused for any longer run of them. */
  lemma InsertAllPrefixRefused(base: seq<Row>, baseId: Id, recs: seq<Record>, p: nat, l: nat)
    requires p <= l <= |recs| && InsertAll(base, baseId, recs[..p]) == None
    ensures InsertAll(base, baseId, recs[..l]) == None
  {
    assert recs[..l] == recs[..p] + recs[p..l];
    InsertAllAppend(base, baseId, recs[..p], recs[p..l]);
  }

  /** Where the whole batches of n entities end, seen from a batch boundary m. */
  lemma BatchFloor(m: nat, n: nat)
    requires m % 101 == 0 && m <= n
    ensures m + 101 <= n ==> m + 101 <= n / 101 * 101
    ensures n < m + 101 ==> n / 101 * 101 == m
  {
  }

  /** After the batches before m were stored, postImport() goes on from m. */
  lemma {:induction false} ImportResumes(base: seq<Row>, baseId: Id, recs: seq<Record>, refusal: Option<EntityError>,
                                         m: nat, rows: seq<Row>, nextId: Id)
    requires m <= |recs| && m % 101 == 0 && InsertAll(base, baseId, recs[..m]) == Some((rows, nextId))
    ensures ImportOutcome(base, baseId, recs, refusal) == ImportFrom(rows, nextId, recs, refusal, m)
    decreases m
  {
    if m == 0 {
      assert recs[..m] == [];
    } else {
      var p := m - 101;
      assert recs[..m] == recs[..p] + recs[p..m];
      InsertAllAppend(base, baseId, recs[..p], recs[p..m]);
      var before := InsertAll(base, baseId, recs[..p]).value;
      ImportResumes(base, baseId, recs, refusal, p, before.0, before.1);
    }
  }

  /** From every batch boundary on, the outcome of postImport() means what ImportResult says. */
  lemma {:induction false} ImportFromMeetsResult(base: seq<Row>, baseId: Id, recs: seq<Record>,
                                                 refusal: Option<EntityError>, m: nat, rows: seq<Row>, nextId: Id)
    requires m <= |recs| && m % 101 == 0 && InsertAll(base, baseId, recs[..m]) == Some((rows, nextId))
    ensures var r := ImportFrom(rows, nextId, recs, refusal, m);
      ImportResult(base, baseId, recs, refusal, r.0, r.1, r.2)
    decreases |recs| - m
  {
    assert recs[..|recs|] == recs;
    BatchFloor(m, |recs|);
    if m + 101 <= |recs| {
      assert recs[..m + 101] == recs[..m] + recs[m..m + 101];
      InsertAllAppend(base, baseId, recs[..m], recs[m..m + 101]);
      var next := InsertAll(rows, nextId, recs[m..m + 101]);
      if next.None? {
        InsertAllPrefixRefused(base, baseId, recs, m + 101, |recs| / 101 * 101);
        InsertAllPrefixRefused(base, baseId, recs, m + 101, |recs|);
        assert FailedFlushAt(base, baseId, recs, refusal, m, rows, nextId);
      } else {
        ImportFromMeetsResult(base, baseId, recs, refusal, m + 101, next.value.0, next.value.1);
      }
    } else {
      assert recs == recs[..m] + recs[m..];
      InsertAllAppend(base, baseId, recs[..m], recs[m..]);
      if refusal.None? && InsertAll(rows, nextId, recs[m..]).None? {
        assert FailedFlushAt(base, baseId, recs, refusal, m, rows, nextId);
      }
    }
  }

  /** Whatever was constructed and refused, the outcome of postImport() means what ImportResult says. */
  lemma ImportOutcomeMeetsResult(base: seq<Row>, baseId: Id, recs: seq<Record>, refusal: Option<EntityError>)
    ensures var r := ImportOutcome(base, baseId, recs, refusal);
      ImportResult(base, baseId, recs, refusal, r.0, r.1, r.2)
  {
    assert recs[..0] == [];
    ImportFromMeetsResult(base, baseId, recs, refusal, 0, base, baseId);
  }

  /** A refused address after some whole batches were stored: its error, and the pending entities are lost. */
  lemma ImportEndsRefused(base: seq<Row>, baseId: Id, committed: seq<Record>, batches: nat, pending: seq<Record>,
                          e: EntityError, rows: seq<Row>, nextId: Id)
    requires InsertAll(base, baseId, committed) == Some((rows, nextId)) && |committed| == 101 * batches
    requires |pending| < 101
    ensures ImportOutcome(base, baseId, committed + pending, Some(e)) == (Fail(Invalid(e)), rows, nextId)
  {
    assert (committed + pending)[..|committed|] == committed;
    ImportResumes(base, baseId, committed + pending, Some(e), |committed|, rows, nextId);
  }

  /** The flush of a full batch after some whole batches were stored breaks a unique column. */
  lemma ImportBatchRefused(base: seq<Row>, baseId: Id, recs: seq<Record>, refusal: Option<EntityError>,
                           committed: seq<Record>, batches: nat, batch: seq<Record>, rows: seq<Row>, nextId: Id)
    requires InsertAll(base, baseId, committed) == Some((rows, nextId)) && |committed| == 101 * batches
    requires |batch| == 101 && |committed + batch| <= |recs| && recs[..|committed + batch|] == committed + batch
    requires InsertAll(base, baseId, committed + batch) == None
    ensures ImportOutcome(base, baseId, recs, refusal) == (Fail(ConstraintViolation), rows, nextId)
  {
    var m := |committed|;
    assert recs[..m] == committed;
    assert recs[m..m + 101] == batch;
    ImportResumes(base, baseId, recs, refusal, m, rows, nextId);
    InsertAllAppend(base, baseId, committed, batch);
  }

  /** The final flush after every address was constructed: it passes or breaks a unique column. */
  lemma ImportFinalFlush(base: seq<Row>, baseId: Id, committed: seq<Record>, batches: nat, pending: seq<Record>,
                         rows: seq<Row>, nextId: Id)
    requires InsertAll(base, baseId, committed) == Some((rows, nextId)) && |committed| == 101 * batches
    requires |pending| < 101
    ensures ImportOutcome(base, baseId, committed + pending, None) ==
      match InsertAll(base, baseId, committed + pending)
      case None => (Fail(ConstraintViolation), rows, nextId)
      case Some(next) => (Pass, next.0, next.1)
  {
    var recs := committed + pending;
    assert recs[..|committed|] == committed && recs[|committed|..] == pending;
    ImportResumes(base, baseId, recs, None, |committed|, rows, nextId);
    InsertAllAppend(base, baseId, committed, pending);
  }

  /**
   * The state of postImport() after the first j distinct addresses: the entities constructed so
   * far are the flushed batches (`committed`, whole batches of 101, stored in the table as
   * (rows, nextId)) followed by the pending ones, which are well formed and counted by `counter`.
   */
  ghost predicate ImportState(unique: seq<string>, ts: seq<string>, stored: set<string>, st: Stamp,
                              isEmail: string -> bool, base: seq<Row>, baseId: Id, j: nat, committed: seq<Record>,
                              pending: seq<Record>, counter: nat, batches: nat, rows: seq<Row>, nextId: Id)
  {
    && |ts| == |unique| && j <= |unique|
    && Constructed(ImportQueue(unique, ts, stored, j), st, isEmail) == (committed + pending, None)
    && counter == |pending| < 101 && |committed| == 101 * batches
    && (forall k :: 0 <= k < |pending| ==> WellFormed(pending[k], isEmail))
    && InsertAll(base, baseId, committed) == Some((rows, nextId))
  }

  /** Nothing constructed and nothing stored yet. */
  lemma StartImport(unique: seq<string>, ts: seq<string>, stored: set<string>, st: Stamp, isEmail: string -> bool,
                    base: seq<Row>, baseId: Id)
    requires |ts| == |unique|
    ensures ImportState(unique, ts, stored, st, isEmail, base, baseId, 0, [], [], 0, 0, base, baseId)
  {
    var none: seq<Record> := [];
    assert none + none == none;
  }

  /** An address stored as written is skipped. */
  lemma SkippedImport(unique: seq<string>, ts: seq<string>, stored: set<string>, j: nat, st: Stamp,
                      isEmail: string -> bool, base: seq<Row>, baseId: Id, committed: seq<Record>,
                      pending: seq<Record>, counter: nat, batches: nat, rows: seq<Row>, nextId: Id)
    requires ImportState(unique, ts, stored, st, isEmail, base, baseId, j, committed, pending, counter, batches,
                         rows, nextId)
    requires j < |unique| && unique[j] in stored
    ensures ImportState(unique, ts, stored, st, isEmail, base, baseId, j + 1, committed, pending, counter, batches,
                        rows, nextId)
  {
    ImportQueueNext(unique, ts, stored, j);
  }

  /** The constructor refuses the next address: the outcome of the whole import is decided. */
  lemma RefusedImport(unique: seq<string>, ts: seq<string>, stored: set<string>, j: nat, st: Stamp,
                      isEmail: string -> bool, base: seq<Row>, baseId: Id, committed: seq<Record>,
                      pending: seq<Record>, counter: nat, batches: nat, rows: seq<Row>, nextId: Id)
    requires ImportState(unique, ts, stored, st, isEmail, base, baseId, j, committed, pending, counter, batches,
                         rows, nextId)
    requires j < |unique| && unique[j] !in stored && NormalizeEmail(unique[j], isEmail).Err?
    ensures var whole := Constructed(ImportQueue(unique, ts, stored, |unique|), st, isEmail);
      ImportOutcome(base, baseId, whole.0, whole.1) == (Fail(Invalid(NormalizeEmail(unique[j], isEmail).error)), rows, nextId)
  {
    ConstructionRefused(unique, ts, stored, j, st, isEmail, committed + pending);
    ImportEndsRefused(base, baseId, committed, batches, pending, NormalizeEmail(unique[j], isEmail).error, rows, nextId);
  }

  /**
   * The constructor accepts the next address and its fresh entity is persisted without a failed
   * flush: what was constructed grows by that entity, now split as the persist left it.
   */
  lemma PersistedImport(unique: seq<string>, ts: seq<string>, stored: set<string>, j: nat, st: Stamp,
                        isEmail: string -> bool, base: seq<Row>, baseId: Id, committed: seq<Record>,
                        pending: seq<Record>, counter: nat, batches: nat, rows: seq<Row>, nextId: Id,
                        committed': seq<Record>, pending': seq<Record>, counter': nat, batches': nat,
                        rows': seq<Row>, nextId': Id)
    requires ImportState(unique, ts, stored, st, isEmail, base, baseId, j, committed, pending, counter, batches,
                         rows, nextId)
    requires j < |unique| && unique[j] !in stored && NormalizeEmail(unique[j], isEmail).Ok?
    requires committed' + pending'
      == committed + pending + [Initial(StrToLower(unique[j]), st.source, st.clientIp, ts[j], st.now)]
    requires InsertAll(base, baseId, committed') == Some((rows', nextId')) && |committed'| == 101 * batches'
    requires counter' == |pending'| < 101
    requires forall k :: 0 <= k < |pending'| ==> WellFormed(pending'[k], isEmail)
    ensures ImportState(unique, ts, stored, st, isEmail, base, baseId, j + 1, committed', pending', counter',
                        batches', rows', nextId')
  {
    ImportQueueNext(unique, ts, stored, j);
    ConstructedStep(ImportQueue(unique, ts, stored, j), (unique[j], ts[j]), st, isEmail, committed + pending);
  }

  /** The next address, not stored and accepted by the constructor, adds its fresh entity. */
  lemma ConstructedNext(unique: seq<string>, ts: seq<string>, stored: set<string>, j: nat, st: Stamp,
                        isEmail: string -> bool, committed: seq<Record>, pending: seq<Record>, contact: Record)
    requires |ts| == |unique| && j < |unique| && unique[j] !in stored && NormalizeEmail(unique[j], isEmail).Ok?
    requires Constructed(ImportQueue(unique, ts, stored, j), st, isEmail) == (committed + pending, None)
    requires contact == Initial(StrToLower(unique[j]), st.source, st.clientIp, ts[j], st.now)
    ensures Constructed(ImportQueue(unique, ts, stored, j + 1), st, isEmail) == (committed + (pending + [contact]), None)
  {
    ImportQueueNext(unique, ts, stored, j);
    ConstructedStep(ImportQueue(unique, ts, stored, j), (unique[j], ts[j]), st, isEmail, committed + pending);
    assert committed + pending + [contact] == committed + (pending + [contact]);
  }

  /**
   * The constructor accepts the next address, and the flush of the full batch it completes breaks a
   * unique column: the outcome of the whole import is decided.
   */
  lemma PersistRefused(unique: seq<string>, ts: seq<string>, stored: set<string>, j: nat, st: Stamp,
                       isEmail: string -> bool, base: seq<Row>, baseId: Id, committed: seq<Record>,
                       pending: seq<Record>, batches: nat, rows: seq<Row>, nextId: Id, contact: Record)
    requires |ts| == |unique| && j < |unique| && unique[j] !in stored && NormalizeEmail(unique[j], isEmail).Ok?
    requires Constructed(ImportQueue(unique, ts, stored, j), st, isEmail) == (committed + pending, None)
    requires contact == Initial(StrToLower(unique[j]), st.source, st.clientIp, ts[j], st.now)
    requires InsertAll(base, baseId, committed) == Some((rows, nextId)) && |committed| == 101 * batches
    requires InsertAll(base, baseId, committed + (pending + [contact])) == None && |pending| == 100
    ensures var whole := Constructed(ImportQueue(unique, ts, stored, |unique|), st, isEmail);
      ImportOutcome(base, baseId, whole.0, whole.1) == (Fail(ConstraintViolation), rows, nextId)
  {
    ConstructedNextSoFar(unique, ts, stored, j, st, isEmail, committed, pending, contact);
    var whole := Constructed(ImportQueue(unique, ts, stored, |unique|), st, isEmail);
    ImportBatchRefused(base, baseId, whole.0, whole.1, committed, batches, pending + [contact], rows, nextId);
  }

  /** The entities constructed up to and including the next address begin those constructed for all. */
  lemma ConstructedNextSoFar(unique: seq<string>, ts: seq<string>, stored: set<string>, j: nat, st: Stamp,
                             isEmail: string -> bool, committed: seq<Record>, pending: seq<Record>, contact: Record)
    requires |ts| == |unique| && j < |unique| && unique[j] !in stored && NormalizeEmail(unique[j], isEmail).Ok?
    requires Constructed(ImportQueue(unique, ts, stored, j), st, isEmail) == (committed + pending, None)
    requires contact == Initial(StrToLower(unique[j]), st.source, st.clientIp, ts[j], st.now)
    ensures var whole := Constructed(ImportQueue(unique, ts, stored, |unique|), st, isEmail).0;
      |committed + (pending + [contact])| <= |whole| && whole[..|committed + (pending + [contact])|] == committed + (pending + [contact])
  {
    ConstructedNext(unique, ts, stored, j, st, isEmail, committed, pending, contact);
    ConstructedSoFar(unique, ts, stored, j + 1, st, isEmail, committed + (pending + [contact]));
  }

  /**
   * `if (($counter++) >= 100)`: the counter value after one persist and whether the pending
   * entities are flushed.
   */
  function CounterStep(counter: nat): (nat, bool) {
    if counter >= 100 then (0, true) else (counter + 1, false)
  }

  /**
   * Counted from zero, the counter after n persists is n mod 101, and the n-th persist flushes
   * exactly when n is a multiple of 101: batches hold 101 entities, not 100.
   */
  lemma CounterCountsBatchesOf101(n: nat)
    ensures CounterStep(n % 101) == ((n + 1) % 101, (n + 1) % 101 == 0)
  {
    if n % 101 == 100 {
      assert (n + 1) % 101 == 0;
    } else {
      assert (n + 1) % 101 == n % 101 + 1;
    }
  }

  /**
   * An address stored in lower case but given with an upper-case letter is not skipped: it is
   * queued, and its entity clashes with the stored row at the flush.
   */
  lemma CaseVariantOfStoredAddressIsQueued(stored: Row, given: string, token: string, st: Stamp, isEmail: string -> bool)
    requires given != stored.contact.email && StrToLower(given) == stored.contact.email
    requires NormalizeEmail(given, isEmail).Ok?
    ensures ImportQueue([given], [token], StoredEmails([stored]), 1) == [(given, token)]
    ensures Constructed([(given, token)], st, isEmail).0
            == [Initial(stored.contact.email, st.source, st.clientIp, token, st.now)]
    ensures InsertAll([stored], stored.id + 1, Constructed([(given, token)], st, isEmail).0) == None
  {
    assert given !in StoredEmails([stored]);
    assert ImportQueue([given], [token], StoredEmails([stored]), 1)
           == ImportQueue([given], [token], StoredEmails([stored]), 0) + [(given, token)];
    var q := [(given, token)];
    assert q[..0] == [];
    assert !CanInsert([stored], Initial(stored.contact.email, st.source, st.clientIp, token, st.now));
  }

  // ---------------------------------------------------------------------------------------------
  // Authorization switch (actionAuthorize)

  /**
   * actionAuthorize: the contact with that identifier is authorized (confirm = true) or loses its
   * confirmation flag (confirm = false); every other row is left alone.
   */
  function SetAuthorization(rows: seq<Row>, id: Id, confirm: bool, now: Time, clientIp: string): (r: Result<seq<Row>, LookupError>)
    ensures r.Err? <==> Lookup(rows, ById(id)).Err?
    ensures r.Err? ==> r.error == Lookup(rows, ById(id)).error
    ensures r.Ok? ==> |r.value| == |rows|
    ensures r.Ok? ==> var i := Lookup(rows, ById(id)).value;
      && r.value[i].id == id
      && r.value[i].contact.authorizedByUser == confirm
      && r.value[i].contact.IsActive() == confirm
      && r.value[i].contact.email == rows[i].contact.email && r.value[i].contact.hash == rows[i].contact.hash
      && (confirm ==> AuthorizedFrom(r.value[i].contact, rows[i].contact, now, clientIp))
      && (!confirm ==> r.value[i].contact == rows[i].contact.(authorizedByUser := false))
      && (forall j :: 0 <= j < |rows| && j != i ==> r.value[j] == rows[j])
  {
    match Lookup(rows, ById(id))
    case Err(e) => Err(e)
    case Ok(i) =>
      var c := rows[i].contact;
      Ok(rows[i := Row(rows[i].id, if confirm then c.Authorize(now, clientIp) else c.UnAuthorize())])
  }

  /** Switching the confirmation off and on again leaves the contact authorized at the later time. */
  lemma OffThenOn(rows: seq<Row>, id: Id, t1: Time, t2: Time, ip1: string, ip2: string)
    requires SetAuthorization(rows, id, false, t1, ip1).Ok?
    ensures var off := SetAuthorization(rows, id, false, t1, ip1).value;
      var i := Lookup(rows, ById(id)).value;
      SetAuthorization(off, id, true, t2, ip2) == Ok(rows[i := Row(id, rows[i].contact.Authorize(t2, ip2))])
  {
    var i := Lookup(rows, ById(id)).value;
    var c := rows[i].contact;
    var off := rows[i := Row(rows[i].id, c.UnAuthorize())];
    assert SetAuthorization(rows, id, false, t1, ip1) == Ok(off);
    LookupAfterUpdate(rows, i, off[i], ById(id));
    assert Lookup(off, ById(id)) == Ok(i);
    assert off[i].contact.Authorize(t2, ip2) == c.Authorize(t2, ip2);
    assert off[i := Row(off[i].id, off[i].contact.Authorize(t2, ip2))] == rows[i := Row(id, c.Authorize(t2, ip2))];
  }

  // ---------------------------------------------------------------------------------------------
  // CSV export (actionCsvExport)

  /** implode(sep, parts) */
  function Join(parts: seq<string>, sep: char): (r: string)
    ensures parts == [] ==> r == []
    decreases |parts|
  {
    if parts == [] then []
    else if |parts| == 1 then parts[0]
    else parts[0] + [sep] + Join(parts[1..], sep)
  }

  /** explode(sep, s) */
  function Split(s: string, sep: char): (r: seq<string>)
    ensures |r| >= 1
    ensures forall k :: 0 <= k < |r| ==> sep !in r[k]
    decreases |s|
  {
    if s == [] then [[]]
    else
      var rest := Split(s[1..], sep);
      if s[0] == sep then [[]] + rest else [[s[0]] + rest[0]] + rest[1..]
  }

  lemma {:induction false} SplitPlain(s: string, sep: char)
    requires sep !in s
    ensures Split(s, sep) == [s]
    decreases |s|
  {
    if s != [] {
      SplitPlain(s[1..], sep);
      assert [s[0]] + s[1..] == s;
    }
  }

  lemma {:induction false} SplitAfter(a: string, b: string, sep: char)
    requires sep !in a
    ensures Split(a + [sep] + b, sep) == [a] + Split(b, sep)
    decreases |a|
  {
    if a == [] {
      assert [sep] + b == a + [sep] + b;
      assert ([sep] + b)[1..] == b;
    } else {
      assert (a + [sep] + b)[0] == a[0] && (a + [sep] + b)[1..] == a[1..] + [sep] + b;
      SplitAfter(a[1..], b, sep);
      assert [a[0]] + a[1..] == a;
    }
  }

  /** explode undoes implode when no part contains the separator. */
  lemma {:induction false} SplitJoin(parts: seq<string>, sep: char)
    requires parts != []
    requires forall k :: 0 <= k < |parts| ==> sep !in parts[k]
    ensures Split(Join(parts, sep), sep) == parts
    decreases |parts|
  {
    if |parts| == 1 {
      SplitPlain(parts[0], sep);
    } else {
      SplitJoin(parts[1..], sep);
      SplitAfter(parts[0], Join(parts[1..], sep), sep);
      assert [parts[0]] + parts[1..] == parts;
    }
  }

  function Quote(field: string): string {
    "\"" + field + "\""
  }

  /** `"a";"b";…`: every field in double quotes, separated by semicolons, nothing escaped. */
  function CsvLine(fields: seq<string>): string {
    Join(seq(|fields|, k requires 0 <= k < |fields| => Quote(fields[k])), ';')
  }

  /** The column titles of the export. */
  const CsvTitles: seq<string> := ["E-mail", "Authorized Date", "Inserted Date", "Source", "Active"]

  /** The header line, `"E-mail";"Authorized Date";"Inserted Date";"Source";"Active"`. */
  const CsvHeader: string := CsvLine(CsvTitles)

  /** The header holds no line break and reads back as the five column titles. */
  lemma HeaderReadsBack()
    ensures '\n' !in CsvHeader
    ensures ParseCsvLine(CsvHeader) == CsvTitles
  {
    NoBreakInLine(CsvTitles, '\n');
    CsvLineRoundTrip(CsvTitles);
  }

  /** A field read back from its quoted form. */
  function Unquote(s: string): string {
    if |s| >= 2 && s[0] == '"' && s[|s| - 1] == '"' then s[1..|s| - 1] else s
  }

  /** Reading a line back: split on semicolons, strip the quotes. */
  function ParseCsvLine(line: string): (r: seq<string>) {
    var cells := Split(line, ';');
    seq(|cells|, k requires 0 <= k < |cells| => Unquote(cells[k]))
  }

  /** A line reads back as its fields when none of them holds a semicolon. */
  lemma CsvLineRoundTrip(fields: seq<string>)
    requires fields != []
    requires forall k :: 0 <= k < |fields| ==> ';' !in fields[k]
    ensures ParseCsvLine(CsvLine(fields)) == fields
  {
    var quoted := seq(|fields|, k requires 0 <= k < |fields| => Quote(fields[k]));
    forall k | 0 <= k < |quoted| ensures ';' !in quoted[k] {
      assert quoted[k] == ['"'] + fields[k] + ['"'];
    }
    SplitJoin(quoted, ';');
    forall k | 0 <= k < |fields| ensures Unquote(quoted[k]) == fields[k] {
      assert quoted[k][1..|quoted[k]| - 1] == fields[k];
    }
  }

  /**
   * The five cells of one contact: the address, the confirmation date (DateTime::from(null) is the
   * current time, so a contact never confirmed shows the export date), the insertion date, the
   * source or '', and 'y' when a confirmation date exists and the contact is not canceled.
   */
  function CsvFields(c: Record, exportTime: Time, format: Time -> string): (r: seq<string>)
    ensures |r| == 5 && r[0] == c.email && r[2] == format(c.insertedDate)
    ensures r[1] == format(if c.authorizedDate.Some? then c.authorizedDate.value else exportTime)
    ensures r[3] == (if c.source.Some? then c.source.value else [])
    ensures r[4] == "y" <==> c.authorizedDate.Some? && !c.canceled
    ensures r[4] == "y" || r[4] == "n"
  {
    [c.email,
     format(if c.authorizedDate.Some? then c.authorizedDate.value else exportTime),
     format(c.insertedDate),
     if c.source.Some? then c.source.value else [],
     if c.authorizedDate.Some? && !c.canceled then "y" else "n"]
  }

  function CsvLines(ordered: seq<Row>, exportTime: Time, format: Time -> string): (r: seq<string>)
    ensures |r| == |ordered|
    ensures forall k :: 0 <= k < |ordered| ==> r[k] == CsvLine(CsvFields(ordered[k].contact, exportTime, format))
  {
    seq(|ordered|, k requires 0 <= k < |ordered| => CsvLine(CsvFields(ordered[k].contact, exportTime, format)))
  }

  /** The response body: the header, a newline, then the contact lines joined by newlines. */
  function CsvDocument(ordered: seq<Row>, exportTime: Time, format: Time -> string): string {
    CsvHeader + "\n" + Join(CsvLines(ordered, exportTime, format), '\n')
  }

  /** The cells of a contact hold no line break or semicolon. */
  predicate CsvSafe(c: Record, exportTime: Time, format: Time -> string) {
    forall k :: 0 <= k < 5 ==> '\n' !in CsvFields(c, exportTime, format)[k] && ';' !in CsvFields(c, exportTime, format)[k]
  }

  /**
   * When no cell holds a line break or a semicolon, the document reads back line by line: the
   * header first, then each contact's five cells in the export order.
   */
  lemma CsvDocumentRoundTrip(ordered: seq<Row>, exportTime: Time, format: Time -> string)
    requires ordered != []
    requires forall k :: 0 <= k < |ordered| ==> CsvSafe(ordered[k].contact, exportTime, format)
    ensures var lines := Split(CsvDocument(ordered, exportTime, format), '\n');
      && |lines| == |ordered| + 1
      && ParseCsvLine(lines[0]) == CsvTitles
      && forall k :: 0 <= k < |ordered| ==>
           ParseCsvLine(lines[k + 1]) == CsvFields(ordered[k].contact, exportTime, format)
  {
    var body := CsvLines(ordered, exportTime, format);
    forall k | 0 <= k < |body| ensures '\n' !in body[k] {
      NoBreakInLine(CsvFields(ordered[k].contact, exportTime, format), '\n');
    }
    SplitJoin(body, '\n');
    HeaderReadsBack();
    SplitAfter(CsvHeader, Join(body, '\n'), '\n');
    forall k | 0 <= k < |ordered|
      ensures ParseCsvLine(body[k]) == CsvFields(ordered[k].contact, exportTime, format)
    {
      CsvLineRoundTrip(CsvFields(ordered[k].contact, exportTime, format));
    }
  }

  /** The export of an empty table is the header line followed by an empty line. */
  lemma EmptyCsvDocument(exportTime: Time, format: Time -> string)
    ensures Split(CsvDocument([], exportTime, format), '\n') == [CsvHeader, []]
  {
    HeaderReadsBack();
    assert CsvDocument([], exportTime, format) == CsvHeader + ['\n'] + [];
    SplitAfter(CsvHeader, [], '\n');
  }

  lemma {:induction false} NoBreakInJoin(parts: seq<string>, sep: char, c: char)
    requires c != sep && forall k :: 0 <= k < |parts| ==> c !in parts[k]
    ensures c !in Join(parts, sep)
    decreases |parts|
  {
    if |parts| > 1 {
      NoBreakInJoin(parts[1..], sep, c);
    }
  }

  lemma NoBreakInLine(fields: seq<string>, c: char)
    requires c != ';' && c != '"' && forall k :: 0 <= k < |fields| ==> c !in fields[k]
    ensures c !in CsvLine(fields)
  {
    var quoted := seq(|fields|, k requires 0 <= k < |fields| => Quote(fields[k]));
    forall k | 0 <= k < |quoted| ensures c !in quoted[k] {
      assert quoted[k] == ['"'] + fields[k] + ['"'];
    }
    NoBreakInJoin(quoted, ';', c);
  }

  /** An order the database may return for ORDER BY insertedDate DESC; ties come in any order. */
  ghost predicate ExportOrder(ordered: seq<Row>, rows: seq<Row>) {
    && multiset(ordered) == multiset(rows)
    && forall i, j :: 0 <= i < j < |ordered| ==> ordered[i].contact.insertedDate >= ordered[j].contact.insertedDate
  }

  // ---------------------------------------------------------------------------------------------
  // The endpoint

  class NewsletterEndpoint {
    const manager: NewsletterManager

    constructor (manager: NewsletterManager)
      ensures this.manager == manager
    {
      this.manager := manager;
    }

    /**
     * actionDefault: the number of contacts passing the filters and the page of them at
     * offset (page - 1) * limit, at most `limit` long, read in the listing order `ordered`.
     */
    method ActionDefault(page: int, limit: int, f: ListFilter, ordered: seq<Row>)
      returns (r: Result<(seq<ListItem>, nat), ListError>)
      requires ListingOrder(ordered, manager.rows)
      ensures (page - 1) * limit < 0 || limit < 0 <==> r.Err?
      ensures r.Err? ==> r.error == NegativeWindow((page - 1) * limit, limit)
      ensures r.Ok? ==> r.value.1 == |Selected(manager.rows, f)| == |Selected(ordered, f)|
      ensures r.Ok? ==> var items := r.value.0;
        var window := Window(Selected(ordered, f), (page - 1) * limit, limit);
        && |items| == |window| <= limit
        && (forall k :: 0 <= k < |items| ==> items[k] == ItemOf(window[k]))
    {
      var offset := (page - 1) * limit;
      if offset < 0 || limit < 0 {
        return Err(NegativeWindow(offset, limit));
      }
      var count := |Selected(manager.rows, f)|;
      CountIgnoresOrder(ordered, manager.rows, f);
      var list := Window(Selected(ordered, f), offset, limit);
      var items: seq<ListItem> := [];
      for k := 0 to |list|
        invariant |items| == k
        invariant forall l :: 0 <= l < k ==> items[l] == ItemOf(list[l])
      {
        items := items + [ItemOf(list[k])];
      }
      return Ok((items, count));
    }

    /** postAnalyseEmails: each distinct address found in the text, with whether it is stored. */
    method PostAnalyseEmails(haystack: string, matcher: string -> seq<string>) returns (r: seq<(string, bool)>)
      ensures var found := ArrayUnique(ExtractEmails(haystack, matcher, manager.isEmail));
        && |r| == |found|
        && forall k :: 0 <= k < |r| ==> r[k] == (found[k], EmailStored(manager.rows, found[k]))
    {
      var addresses := GetEmailAddresses(haystack, matcher, manager.isEmail);
      var emails := ArrayUnique(addresses);
      var known := MarkKnown(manager.rows, emails);
      r := [];
      for k := 0 to |emails|
        invariant |r| == k
        invariant forall l :: 0 <= l < k ==> r[l] == (emails[l], EmailStored(manager.rows, emails[l]))
      {
        r := r + [(emails[k], known[emails[k]])];
      }
    }

    /**
     * postImport: the distinct given addresses not stored exactly as written are constructed in
     * order and flushed whenever 101 of them are pending, and once more at the end. A refused
     * address aborts the request and loses the pending entities; a flush that would break a unique
     * column rolls back its batch and aborts.
     */
    method PostImport(emails: seq<string>, st: Stamp, tokens: seq<string>) returns (o: Outcome<Error>)
      requires manager.Valid()
      requires |tokens| == |emails| && forall k :: 0 <= k < |tokens| ==> |tokens[k]| == HashLength
      modifies manager
      ensures manager.Valid() && manager.config == old(manager.config)
      ensures var unique := ArrayUnique(emails);
        var queue := ImportQueue(unique, tokens[..|unique|], StoredEmails(old(manager.rows)), |unique|);
        var built := Constructed(queue, st, manager.isEmail);
        ImportOutcome(old(manager.rows), old(manager.nextId), built.0, built.1) == (o, manager.rows, manager.nextId)
    {
      var unique := ArrayUnique(emails);
      var ts := tokens[..|unique|];
      var base, baseId := manager.rows, manager.nextId;
      var used := MarkKnown(manager.rows, unique);
      ghost var stored := StoredEmails(base);
      ghost var whole := Constructed(ImportQueue(unique, ts, stored, |unique|), st, manager.isEmail);
      var counter := 0;
      var pending: seq<Record> := [];
      ghost var committed: seq<Record> := [];
      ghost var batches: nat := 0;
      StartImport(unique, ts, stored, st, manager.isEmail, base, baseId);
      for j := 0 to |unique|
        invariant manager.config == old(manager.config)
        invariant manager.Valid()
        invariant ImportState(unique, ts, stored, st, manager.isEmail, base, baseId, j, committed, pending, counter,
                              batches, manager.rows, manager.nextId)
      {
        var email := unique[j];
        assert used[email] <==> email in stored;
        var stop;
        stop, pending, counter, committed, batches :=
          ImportNext(unique, ts, stored, j, email, ts[j], used[email], st, base, baseId, whole, pending, counter,
                     committed, batches);
        if stop.Some? {
          return stop.value;
        }
      }
      o := FinishImport(base, baseId, whole, committed, batches, pending);
    }

    /** The final flush() of postImport(), once every address was constructed. */
    method FinishImport(ghost base: seq<Row>, ghost baseId: Id, ghost whole: (seq<Record>, Option<EntityError>),
                        ghost committed: seq<Record>, ghost batches: nat, pending: seq<Record>)
      returns (o: Outcome<Error>)
      requires manager.Valid() && whole == (committed + pending, None)
      requires forall k :: 0 <= k < |pending| ==> WellFormed(pending[k], manager.isEmail)
      requires InsertAll(base, baseId, committed) == Some((manager.rows, manager.nextId))
      requires |committed| == 101 * batches && |pending| < 101
      modifies manager
      ensures manager.Valid() && manager.config == old(manager.config)
      ensures ImportOutcome(base, baseId, whole.0, whole.1) == (o, manager.rows, manager.nextId)
    {
      ImportFinalFlush(base, baseId, committed, batches, pending, manager.rows, manager.nextId);
      var ok := FlushPending(base, baseId, committed, pending);
      if !ok {
        return Fail(ConstraintViolation);
      }
      return Pass;
    }

    /** One iteration of the loop of postImport(): an address stored as written is skipped. */
    method ImportNext(ghost unique: seq<string>, ghost ts: seq<string>, ghost stored: set<string>, j: nat,
                      email: string, token: string, used: bool, st: Stamp, ghost base: seq<Row>, ghost baseId: Id,
                      ghost whole: (seq<Record>, Option<EntityError>), pending: seq<Record>, counter: nat,
                      ghost committed: seq<Record>, ghost batches: nat)
      returns (stop: Option<Outcome<Error>>, pending': seq<Record>, counter': nat, ghost committed': seq<Record>,
               ghost batches': nat)
      requires manager.Valid()
      requires ImportState(unique, ts, stored, st, manager.isEmail, base, baseId, j, committed, pending, counter,
                           batches, manager.rows, manager.nextId)
      requires j < |unique| && email == unique[j] && token == ts[j] && (used <==> email in stored)
      requires |token| == HashLength
      requires whole == Constructed(ImportQueue(unique, ts, stored, |unique|), st, manager.isEmail)
      modifies manager
      ensures manager.config == old(manager.config)
      ensures manager.Valid()
      ensures stop.None? ==> ImportState(unique, ts, stored, st, manager.isEmail, base, baseId, j + 1, committed',
                                         pending', counter', batches', manager.rows, manager.nextId)
      ensures stop.Some? ==> ImportOutcome(base, baseId, whole.0, whole.1) == (stop.value, manager.rows, manager.nextId)
    {
      if !used {
        stop, pending', counter', committed', batches' :=
          ImportAddress(unique, ts, stored, j, email, token, st, base, baseId, whole, pending, counter, committed, batches);
      } else {
        SkippedImport(unique, ts, stored, j, st, manager.isEmail, base, baseId, committed, pending, counter, batches,
                      manager.rows, manager.nextId);
        stop, pending', counter', committed', batches' := None, pending, counter, committed, batches;
      }
    }

    /**
     * One iteration of the loop of postImport() for an address not stored as written: construct
     * its entity and persist it. A refused address or a failed flush stops the import with its
     * outcome.
     */
    method ImportAddress(ghost unique: seq<string>, ghost ts: seq<string>, ghost stored: set<string>, j: nat,
                         email: string, token: string, st: Stamp, ghost base: seq<Row>, ghost baseId: Id,
                         ghost whole: (seq<Record>, Option<EntityError>), pending: seq<Record>, counter: nat,
                         ghost committed: seq<Record>, ghost batches: nat)
      returns (stop: Option<Outcome<Error>>, pending': seq<Record>, counter': nat, ghost committed': seq<Record>,
               ghost batches': nat)
      requires manager.Valid()
      requires ImportState(unique, ts, stored, st, manager.isEmail, base, baseId, j, committed, pending, counter,
                           batches, manager.rows, manager.nextId)
      requires j < |unique| && email == unique[j] && token == ts[j] && email !in stored
      requires |token| == HashLength
      requires whole == Constructed(ImportQueue(unique, ts, stored, |unique|), st, manager.isEmail)
      modifies manager
      ensures manager.config == old(manager.config)
      ensures manager.Valid()
      ensures stop.None? ==> ImportState(unique, ts, stored, st, manager.isEmail, base, baseId, j + 1, committed',
                                         pending', counter', batches', manager.rows, manager.nextId)
      ensures stop.Some? ==> ImportOutcome(base, baseId, whole.0, whole.1) == (stop.value, manager.rows, manager.nextId)
    {
      ghost var rows, nextId := manager.rows, manager.nextId;
      var created := Newsletter.Create(email, st.source, manager.isEmail, st.clientIp, token, st.now);
      if created.Err? {
        RefusedImport(unique, ts, stored, j, st, manager.isEmail, base, baseId, committed, pending, counter, batches,
                      rows, nextId);
        return Some(Fail(Invalid(created.error))), pending, counter, committed, batches;
      }
      stop, pending', counter', committed', batches' :=
        PersistAddress(unique, ts, stored, j, st, base, baseId, whole, pending, counter, committed, batches,
                       created.value.View());
    }

    /** The persist() half of ImportAddress, for the fresh entity of the next address. */
    method PersistAddress(ghost unique: seq<string>, ghost ts: seq<string>, ghost stored: set<string>, ghost j: nat,
                          ghost st: Stamp, ghost base: seq<Row>, ghost baseId: Id,
                          ghost whole: (seq<Record>, Option<EntityError>), pending: seq<Record>, counter: nat,
                          ghost committed: seq<Record>, ghost batches: nat, contact: Record)
      returns (stop: Option<Outcome<Error>>, pending': seq<Record>, counter': nat, ghost committed': seq<Record>,
               ghost batches': nat)
      requires manager.Valid()
      requires ImportState(unique, ts, stored, st, manager.isEmail, base, baseId, j, committed, pending, counter,
                           batches, manager.rows, manager.nextId)
      requires j < |unique| && unique[j] !in stored && NormalizeEmail(unique[j], manager.isEmail).Ok?
      requires contact == Initial(StrToLower(unique[j]), st.source, st.clientIp, ts[j], st.now)
      requires WellFormed(contact, manager.isEmail)
      requires whole == Constructed(ImportQueue(unique, ts, stored, |unique|), st, manager.isEmail)
      modifies manager
      ensures manager.config == old(manager.config)
      ensures manager.Valid()
      ensures stop.None? ==> ImportState(unique, ts, stored, st, manager.isEmail, base, baseId, j + 1, committed',
                                         pending', counter', batches', manager.rows, manager.nextId)
      ensures stop.Some? ==> ImportOutcome(base, baseId, whole.0, whole.1) == (stop.value, manager.rows, manager.nextId)
    {
      ghost var rows, nextId := manager.rows, manager.nextId;
      var ok;
      ok, pending', counter', committed', batches' := Persist(base, baseId, committed, batches, pending, counter, contact);
      if ok {
        PersistedImport(unique, ts, stored, j, st, manager.isEmail, base, baseId, committed, pending, counter, batches,
                        rows, nextId, committed', pending', counter', batches', manager.rows, manager.nextId);
        stop := None;
      } else {
        PersistRefused(unique, ts, stored, j, st, manager.isEmail, base, baseId, committed, pending, batches,
                       rows, nextId, contact);
        stop := Some(Fail(ConstraintViolation));
      }
    }

    /**
     * One persist() of the loop in postImport(): the entity joins the pending ones, and after
     * `($counter++) >= 100` the 101 pending entities are flushed.
     */
    method Persist(ghost base: seq<Row>, ghost baseId: Id, ghost committed: seq<Record>, ghost batches: nat,
                   pending: seq<Record>, counter: nat, contact: Record)
      returns (ok: bool, pending': seq<Record>, counter': nat, ghost committed': seq<Record>, ghost batches': nat)
      requires manager.Valid() && WellFormed(contact, manager.isEmail)
      requires forall k :: 0 <= k < |pending| ==> WellFormed(pending[k], manager.isEmail)
      requires InsertAll(base, baseId, committed) == Some((manager.rows, manager.nextId))
      requires counter == |pending| < 101 && |committed| == 101 * batches
      modifies manager
      ensures manager.Valid() && manager.config == old(manager.config)
      ensures committed' + pending' == committed + pending + [contact]
      ensures InsertAll(base, baseId, committed') == Some((manager.rows, manager.nextId))
      ensures |committed'| == 101 * batches'
      ensures ok ==> counter' == |pending'| < 101
      ensures ok ==> forall k :: 0 <= k < |pending'| ==> WellFormed(pending'[k], manager.isEmail)
      ensures ok && counter < 100 ==> committed' == committed && pending' == pending + [contact]
      ensures ok && counter == 100 ==> committed' == committed + pending + [contact] && pending' == []
      ensures !ok ==> counter == 100 && committed' == committed && pending' == pending + [contact]
      ensures !ok ==> InsertAll(base, baseId, committed' + pending') == None
    {
      var step := CounterStep(counter);
      pending' := pending + [contact];
      committed', batches' := committed, batches;
      counter' := step.0;
      ok := true;
      if step.1 {
        ok := FlushPending(base, baseId, committed, pending');
        if ok {
          committed', pending', batches' := committed + pending', [], batches + 1;
        }
      }
    }

    /**
     * flush() of the pending entities: they are inserted after the rows committed so far, or the
     * flush fails and the table stays as it is.
     */
    method FlushPending(ghost base: seq<Row>, ghost baseId: Id, ghost committed: seq<Record>, pending: seq<Record>)
      returns (ok: bool)
      requires manager.Valid()
      requires forall k :: 0 <= k < |pending| ==> WellFormed(pending[k], manager.isEmail)
      requires InsertAll(base, baseId, committed) == Some((manager.rows, manager.nextId))
      modifies manager
      ensures manager.Valid() && manager.config == old(manager.config)
      ensures ok ==> InsertAll(base, baseId, committed + pending) == Some((manager.rows, manager.nextId))
      ensures !ok ==> InsertAll(base, baseId, committed + pending) == None
      ensures !ok ==> manager.rows == old(manager.rows) && manager.nextId == old(manager.nextId)
    {
      ok := manager.Flush(pending);
      InsertAllAppend(base, baseId, committed, pending);
    }

    /**
     * actionAuthorize: authorize() or unAuthorize() on the contact with that identifier, then
     * flush(); a missing identifier is reported as an error and changes nothing.
     */
    method ActionAuthorize(id: Id, confirm: bool, now: Time, clientIp: string) returns (o: Outcome<Error>)
      requires manager.Valid()
      modifies manager
      ensures manager.Valid() && manager.nextId == old(manager.nextId) && manager.config == old(manager.config)
      ensures var e := SetAuthorization(old(manager.rows), id, confirm, now, clientIp);
        && (e.Ok? ==> o == Pass && manager.rows == e.value)
        && (e.Err? ==> o == Fail(NotFound(e.error)) && manager.rows == old(manager.rows))
    {
      var found := manager.GetNewsletterById(id);
      if found.Err? {
        return Fail(NotFound(found.error));
      }
      var i := found.value;
      var contact := new Newsletter.FromRecord(manager.rows[i].contact);
      if confirm {
        contact.Authorize(now, clientIp);
      } else {
        contact.UnAuthorize();
      }
      TransitionsPreserveWellFormed(manager.rows[i].contact, manager.isEmail, now, clientIp, None);
      UpdateKeepsInvariant(manager.rows, manager.nextId, i, contact.View(), manager.isEmail);
      manager.rows := manager.rows[i := Row(manager.rows[i].id, contact.View())];
      return Pass;
    }

    /** actionSettings: both retentions and the flag, each read through its getter (which saves defaults). */
    method ActionSettings() returns (authorized: string, unAuthorized: string, active: bool)
      requires manager.Valid()
      modifies manager
      ensures manager.Valid() && manager.rows == old(manager.rows) && manager.nextId == old(manager.nextId)
      ensures var c1 := WithDefault(old(manager.config), AutoRemoveAuthorizedKey, DefaultAuthorizedRetention);
        var c2 := WithDefault(c1, AutoRemoveUnAuthorizedKey, DefaultUnAuthorizedRetention);
        && authorized == c1[AutoRemoveAuthorizedKey]
        && unAuthorized == c2[AutoRemoveUnAuthorizedKey]
        && active == ActiveFlag(c2)
        && manager.config == WithDefault(c2, DefaultRemoveKey, "true")
    {
      authorized := manager.GetAutoRemoveAuthorized();
      unAuthorized := manager.GetAutoRemoveUnAuthorized();
      active := manager.IsAutoRemoveActive();
    }

    /**
     * postSaveSettings: the authorized retention, then the unauthorized one, then the flag; the first
     * retention strtotime() cannot read is reported and nothing after it is saved.
     */
    method PostSaveSettings(authorized: string, unAuthorized: string, active: bool) returns (o: Outcome<Error>)
      requires manager.Valid()
      modifies manager
      ensures manager.Valid() && manager.rows == old(manager.rows) && manager.nextId == old(manager.nextId)
      ensures var a := ValidatedDuration(authorized, manager.parsesTime);
        var u := ValidatedDuration(unAuthorized, manager.parsesTime);
        && (a.Err? ==> o == Fail(a.error) && manager.config == old(manager.config))
        && (a.Ok? && u.Err? ==>
              o == Fail(u.error) && manager.config == old(manager.config)[AutoRemoveAuthorizedKey := a.value])
        && (a.Ok? && u.Ok? ==>
              o == Pass
              && manager.config == old(manager.config)[AutoRemoveAuthorizedKey := a.value]
                                   [AutoRemoveUnAuthorizedKey := u.value][DefaultRemoveKey := StatusString(active)])
    {
      o := manager.SetAutoRemoveAuthorized(authorized);
      if o.Fail? {
        return;
      }
      o := manager.SetAutoRemoveUnAuthorized(unAuthorized);
      if o.Fail? {
        return;
      }
      manager.SetAutoRemoveActive(active);
    }

    /** actionCsvExport: the document for the table read in the export order `ordered`. */
    method ActionCsvExport(ordered: seq<Row>, exportTime: Time, format: Time -> string) returns (out: string)
      requires ExportOrder(ordered, manager.rows)
      ensures out == CsvDocument(ordered, exportTime, format)
    {
      var lines: seq<string> := [];
      for k := 0 to |ordered|
        invariant lines == CsvLines(ordered[..k], exportTime, format)
      {
        lines := lines + [CsvLine(CsvFields(ordered[k].contact, exportTime, format))];
      }
      assert ordered[..|ordered|] == ordered;
      out := CsvHeader + "\n" + Join(lines, '\n');
    }
  }
}
