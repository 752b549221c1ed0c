/**
 * NewsletterManager (src/NewsletterManager.php) over an in-memory table.
 *
 * The table `core__newsletter` is a sequence of rows in auto-increment order; Doctrine's query
 * builder becomes selection over that sequence, `getSingleResult()` becomes Lookup, and a flush
 * that would break the unique columns (email, hash) fails as a whole and changes nothing.
 * The dynamic configuration of namespace 'newsletter' is a map from key to string; a missing key
 * is PHP's null. The clock, the client IP, the random tokens and the outcome of mail delivery are
 * passed in; strtotime() and DateTime::modify() are function-valued fields.
 */
module Manager {
  import opened Wrappers
  import opened Builtins
  import opened Entity

  type Id = nat

  /** One row of the table: the auto-increment identifier and the persisted columns. */
  datatype Row = Row(id: Id, contact: Record)

  const AutoRemoveAuthorizedKey := "auto-remove--authorized"
  const AutoRemoveUnAuthorizedKey := "auto-remove--un-authorized"
  const DefaultRemoveKey := "should-remove-records"

  /** What the getters write back when a key has never been set. */
  const DefaultAuthorizedRetention := "99 years"
  const DefaultUnAuthorizedRetention := "14 days"

  /** setMaxResults(1_000) of autoRemove(). */
  const AutoRemoveLimit: nat := 1000

  /** The two exceptions of getSingleResult(). */
  datatype LookupError = NoResult | NonUniqueResult

  /** What an operation of the manager can throw. */
  datatype Error =
    | NotFound(lookup: LookupError)
    | Invalid(entity: EntityError)
    | ConstraintViolation
    | MailFailed
    | InvalidDuration(duration: string)

  /** The request-dependent inputs of `new Newsletter(...)`: source, Helpers::userIp() and the clock. */
  datatype Stamp = Stamp(source: Option<string>, clientIp: string, now: Time)

  // ---------------------------------------------------------------------------------------------
  // Queries

  /** The WHERE clauses the manager uses: by e-mail, by hash, by identifier. */
  datatype Query = ByEmail(email: string) | ByHash(hash: string) | ById(id: Id)

  predicate Matches(q: Query, row: Row) {
    match q
    case ByEmail(e) => row.contact.email == e
    case ByHash(h) => row.contact.hash == h
    case ById(id) => row.id == id
  }

  /** The positions of the rows a query selects, in table order. */
  function Hits(rows: seq<Row>, q: Query): (r: seq<nat>)
    ensures forall k :: 0 <= k < |r| ==> r[k] < |rows| && Matches(q, rows[r[k]])
    ensures forall i :: 0 <= i < |rows| && Matches(q, rows[i]) ==> i in r
    ensures forall k, l :: 0 <= k < l < |r| ==> r[k] < r[l]
    decreases |rows|
  {
    if rows == [] then []
    else
      var init := rows[..|rows| - 1];
      var rest := Hits(init, q);
      assert forall i :: 0 <= i < |init| ==> init[i] == rows[i];
      if Matches(q, rows[|rows| - 1]) then rest + [|rows| - 1] else rest
  }

  /**
   * getSingleResult(): the position of the only selected row; NoResultException when nothing
   * matches, NonUniqueResultException when two or more rows do.
   */
  function Lookup(rows: seq<Row>, q: Query): (r: Result<nat, LookupError>)
    ensures r.Ok? ==> r.value < |rows| && Matches(q, rows[r.value])
    ensures r.Ok? ==> forall j :: 0 <= j < |rows| && j != r.value ==> !Matches(q, rows[j])
    ensures r == Err(NoResult) <==> forall j :: 0 <= j < |rows| ==> !Matches(q, rows[j])
    ensures r == Err(NonUniqueResult) <==>
      exists i, j :: 0 <= i < j < |rows| && Matches(q, rows[i]) && Matches(q, rows[j])
  {
    var hits := Hits(rows, q);
    if |hits| == 0 then
      Err(NoResult)
    else if |hits| > 1 then
      assert hits[0] < hits[1];
      Err(NonUniqueResult)
    else
      assert forall j :: 0 <= j < |rows| && Matches(q, rows[j]) ==> j == hits[0];
      Ok(hits[0])
  }

  // ---------------------------------------------------------------------------------------------
  // The store invariant

  /** Identifiers strictly increase along the table (auto-increment, rows are never reordered). */
  predicate IdsIncreasing(rows: seq<Row>) {
    forall i, j :: 0 <= i < j < |rows| ==> rows[i].id < rows[j].id
  }

  /** The unique columns: two different rows never share an e-mail or a hash. */
  predicate UniqueColumns(rows: seq<Row>) {
    forall a, b :: a in rows && b in rows && a.id != b.id ==>
      a.contact.email != b.contact.email && a.contact.hash != b.contact.hash
  }

  /** What the table holds between requests. */
  ghost predicate StoreInvariant(rows: seq<Row>, nextId: Id, isEmail: string -> bool) {
    && IdsIncreasing(rows)
    && UniqueColumns(rows)
    && (forall row :: row in rows ==> row.id < nextId && WellFormed(row.contact, isEmail))
  }

  /** The unique columns make getSingleResult() on e-mail, hash or identifier never ambiguous. */
  lemma {:induction false} KeyLookupsAreUnambiguous(rows: seq<Row>, q: Query)
    requires IdsIncreasing(rows) && UniqueColumns(rows)
    ensures Lookup(rows, q) != Err(NonUniqueResult)
  {
  }

  /** A row may be inserted when neither its e-mail nor its hash is taken. */
  predicate CanInsert(rows: seq<Row>, rec: Record) {
    forall row :: row in rows ==> row.contact.email != rec.email && row.contact.hash != rec.hash
  }

  /** Inserting a permitted, well-formed record under the next identifier keeps the invariant. */
  lemma InsertKeepsInvariant(rows: seq<Row>, nextId: Id, rec: Record, isEmail: string -> bool)
    requires StoreInvariant(rows, nextId, isEmail) && CanInsert(rows, rec) && WellFormed(rec, isEmail)
    ensures StoreInvariant(rows + [Row(nextId, rec)], nextId + 1, isEmail)
  {
    var rows' := rows + [Row(nextId, rec)];
    forall i, j | 0 <= i < j < |rows'| ensures rows'[i].id < rows'[j].id {
      assert rows'[i] in rows;
    }
  }

  /** Replacing the columns of one row, keeping its e-mail and hash, keeps the invariant. */
  lemma UpdateKeepsInvariant(rows: seq<Row>, nextId: Id, i: nat, rec: Record, isEmail: string -> bool)
    requires StoreInvariant(rows, nextId, isEmail) && i < |rows| && WellFormed(rec, isEmail)
    requires rec.email == rows[i].contact.email && rec.hash == rows[i].contact.hash
    ensures StoreInvariant(rows[i := Row(rows[i].id, rec)], nextId, isEmail)
  {
    var rows' := rows[i := Row(rows[i].id, rec)];
    forall row | row in rows' ensures row == rows'[i] || row in rows {
      var k :| 0 <= k < |rows'| && rows'[k] == row;
      if k != i {
        assert rows[k] == row;
      }
    }
    assert rows[i] in rows;
  }

  /** Replacing a row by one the query treats alike changes nothing about what the query finds. */
  lemma LookupAfterUpdate(rows: seq<Row>, i: nat, row: Row, q: Query)
    requires i < |rows| && Matches(q, row) == Matches(q, rows[i])
    ensures Lookup(rows[i := row], q) == Lookup(rows, q)
  {
    var rows' := rows[i := row];
    HitsFollowMatches(rows', rows, q);
  }

  /** Tables the query treats alike position by position give the same hits. */
  lemma {:induction false} HitsFollowMatches(a: seq<Row>, b: seq<Row>, q: Query)
    requires |a| == |b| && forall j :: 0 <= j < |a| ==> Matches(q, a[j]) == Matches(q, b[j])
    ensures Hits(a, q) == Hits(b, q)
    decreases |a|
  {
    if a != [] {
      HitsFollowMatches(a[..|a| - 1], b[..|b| - 1], q);
    }
  }

  // ---------------------------------------------------------------------------------------------
  // Deletion

  /** remove($newsletter) + flush(): DELETE by primary key. */
  function WithoutId(rows: seq<Row>, id: Id): (r: seq<Row>)
    ensures forall row :: row in r ==> row in rows && row.id != id
    decreases |rows|
  {
    if rows == [] then []
    else
      var rest := WithoutId(rows[1..], id);
      assert forall row :: row in rest ==> row in rows[1..];
      if rows[0].id == id then rest else [rows[0]] + rest
  }

  /** Deletion keeps the identifiers increasing. */
  lemma {:induction false} WithoutIdKeepsOrder(rows: seq<Row>, id: Id)
    requires IdsIncreasing(rows)
    ensures IdsIncreasing(WithoutId(rows, id))
    decreases |rows|
  {
    if rows != [] {
      TailIncreasing(rows);
      WithoutIdKeepsOrder(rows[1..], id);
      var rest := WithoutId(rows[1..], id);
      if rows[0].id != id {
        assert WithoutId(rows, id) == [rows[0]] + rest;
        forall row | row in rest ensures rows[0].id < row.id {
          HeadBelowTail(rows, row);
        }
        ConsIncreasing(rows[0], rest);
      }
    }
  }

  /** A row below every identifier of an increasing table may go in front of it. */
  lemma ConsIncreasing(x: Row, rest: seq<Row>)
    requires IdsIncreasing(rest) && forall row :: row in rest ==> x.id < row.id
    ensures IdsIncreasing([x] + rest)
  {
    var r := [x] + rest;
    forall a, b | 0 <= a < b < |r| ensures r[a].id < r[b].id {
      assert r[b] == rest[b - 1];
      if a > 0 {
        assert r[a] == rest[a - 1];
      }
    }
  }

  /** The rows after the first keep their identifiers increasing. */
  lemma TailIncreasing(rows: seq<Row>)
    requires IdsIncreasing(rows) && rows != []
    ensures IdsIncreasing(rows[1..])
  {
    var tail := rows[1..];
    forall a, b | 0 <= a < b < |tail| ensures tail[a].id < tail[b].id {
      assert tail[a] == rows[a + 1] && tail[b] == rows[b + 1];
    }
  }

  /** Every later row has a larger identifier than the first. */
  lemma HeadBelowTail(rows: seq<Row>, row: Row)
    requires IdsIncreasing(rows) && rows != [] && row in rows[1..]
    ensures rows[0].id < row.id
  {
    var k :| 0 <= k < |rows[1..]| && rows[1..][k] == row;
    assert row == rows[k + 1];
  }

  /** Deleting one identifier removes exactly one row when that identifier is present. */
  lemma {:induction false} WithoutPresentId(rows: seq<Row>, i: nat)
    requires IdsIncreasing(rows) && i < |rows|
    ensures WithoutId(rows, rows[i].id) == rows[..i] + rows[i + 1..]
    decreases |rows|
  {
    var tail := rows[1..];
    TailIncreasing(rows);
    if i == 0 {
      forall row | row in tail ensures row.id != rows[0].id {
        HeadBelowTail(rows, row);
      }
      WithoutAbsentId(tail, rows[0].id);
    } else {
      assert rows[0].id < rows[i].id;
      WithoutPresentId(tail, i - 1);
      assert tail[..i - 1] == rows[1..i];
      assert tail[i..] == rows[i + 1..];
      assert [rows[0]] + rows[1..i] == rows[..i];
    }
  }

  /** Deleting an identifier nobody has changes nothing. */
  lemma {:induction false} WithoutAbsentId(rows: seq<Row>, id: Id)
    requires forall row :: row in rows ==> row.id != id
    ensures WithoutId(rows, id) == rows
    decreases |rows|
  {
    if rows != [] {
      assert forall row :: row in rows[1..] ==> row in rows;
      WithoutAbsentId(rows[1..], id);
      assert [rows[0]] + rows[1..] == rows;
    }
  }

  /** Deleting an identifier keeps every row with another identifier. */
  lemma {:induction false} WithoutIdKeepsOthers(rows: seq<Row>, id: Id)
    ensures forall row :: row in rows && row.id != id ==> row in WithoutId(rows, id)
    decreases |rows|
  {
    if rows != [] {
      WithoutIdKeepsOthers(rows[1..], id);
      forall row | row in rows && row.id != id ensures row in WithoutId(rows, id) {
        if row != rows[0] {
          assert row in rows[1..];
        }
      }
    }
  }

  /** Deletion keeps the invariant. */
  lemma DeleteKeepsInvariant(rows: seq<Row>, nextId: Id, id: Id, isEmail: string -> bool)
    requires StoreInvariant(rows, nextId, isEmail)
    ensures StoreInvariant(WithoutId(rows, id), nextId, isEmail)
  {
    WithoutIdKeepsOrder(rows, id);
  }

  /**
   * Deleting the row that holds an address removes exactly that row: the address is gone, one
   * row fewer remains, every row with another address stays and the invariant holds.
   */
  lemma DeleteStoredEmail(rows: seq<Row>, nextId: Id, i: nat, email: string, isEmail: string -> bool)
    requires StoreInvariant(rows, nextId, isEmail) && i < |rows| && rows[i].contact.email == email
    ensures var r := WithoutId(rows, rows[i].id);
      && StoreInvariant(r, nextId, isEmail)
      && !EmailStored(r, email)
      && |r| == |rows| - 1
      && forall row :: row in rows && row.contact.email != email ==> row in r
  {
    var id := rows[i].id;
    WithoutPresentId(rows, i);
    WithoutIdKeepsOthers(rows, id);
    DeleteKeepsInvariant(rows, nextId, id, isEmail);
    forall row | row in rows && row.contact.email != email ensures row.id != id {
      var j :| 0 <= j < |rows| && rows[j] == row;
      assert j != i;
    }
    forall row | row in rows && row.contact.email == email ensures row.id == id {
      var j :| 0 <= j < |rows| && rows[j] == row;
      assert j == i;
    }
  }

  // ---------------------------------------------------------------------------------------------
  // Auto-removal

  /**
   * The WHERE clause of autoRemove(): an authorized contact whose authorization is no later than
   * the authorized cut-off, or an unauthorized one inserted no later than the unauthorized cut-off.
   * SQL compares a NULL authorization date with nothing, so such a row never matches the first arm.
   */
  predicate ShouldRemove(r: Record, authorizedCut: Time, unauthorizedCut: Time) {
    || (r.authorizedByUser && r.authorizedDate.Some? && r.authorizedDate.value <= authorizedCut)
    || (!r.authorizedByUser && r.insertedDate <= unauthorizedCut)
  }

  /** The table after deleting the first `budget` rows that match, in table order. */
  function Sweep(rows: seq<Row>, authorizedCut: Time, unauthorizedCut: Time, budget: nat): (r: seq<Row>)
    ensures forall row :: row in r ==> row in rows
    ensures IdsIncreasing(rows) ==> IdsIncreasing(r)
    decreases |rows|
  {
    if rows == [] then []
    else
      var rest := Sweep(rows[1..], authorizedCut, unauthorizedCut,
                        if budget > 0 && ShouldRemove(rows[0].contact, authorizedCut, unauthorizedCut)
                        then budget - 1 else budget);
      assert forall row :: row in rest ==> row in rows[1..];
      if budget > 0 && ShouldRemove(rows[0].contact, authorizedCut, unauthorizedCut) then rest
      else
        assert IdsIncreasing(rows) ==> forall row :: row in rest ==> rows[0].id < row.id;
        [rows[0]] + rest
  }

  /** One step of Sweep from position i. */
  lemma SweepUnfold(rows: seq<Row>, i: nat, authorizedCut: Time, unauthorizedCut: Time, budget: nat)
    requires i < |rows|
    ensures Sweep(rows[i..], authorizedCut, unauthorizedCut, budget)
      == if budget > 0 && ShouldRemove(rows[i].contact, authorizedCut, unauthorizedCut)
         then Sweep(rows[i + 1..], authorizedCut, unauthorizedCut, budget - 1)
         else [rows[i]] + Sweep(rows[i + 1..], authorizedCut, unauthorizedCut, budget)
  {
    assert rows[i..][1..] == rows[i + 1..];
  }

  /** How many rows match the auto-removal condition. */
  function CountExpired(rows: seq<Row>, authorizedCut: Time, unauthorizedCut: Time): nat
    decreases |rows|
  {
    if rows == [] then 0
    else (if ShouldRemove(rows[0].contact, authorizedCut, unauthorizedCut) then 1 else 0)
         + CountExpired(rows[1..], authorizedCut, unauthorizedCut)
  }

  /** The rows that do not match the auto-removal condition, in table order. */
  function Survivors(rows: seq<Row>, authorizedCut: Time, unauthorizedCut: Time): seq<Row>
    decreases |rows|
  {
    if rows == [] then []
    else (if ShouldRemove(rows[0].contact, authorizedCut, unauthorizedCut) then [] else [rows[0]])
         + Survivors(rows[1..], authorizedCut, unauthorizedCut)
  }

  function Min(a: nat, b: nat): nat {
    if a <= b then a else b
  }

  /**
   * The bounds of autoRemove(): it deletes exactly min(budget, matching) rows, every row that does
   * not match survives in order, and when no more than `budget` rows match none are left.
   */
  lemma {:induction false} SweepBounds(rows: seq<Row>, authorizedCut: Time, unauthorizedCut: Time, budget: nat)
    ensures |rows| - |Sweep(rows, authorizedCut, unauthorizedCut, budget)|
            == Min(budget, CountExpired(rows, authorizedCut, unauthorizedCut))
    ensures Survivors(Sweep(rows, authorizedCut, unauthorizedCut, budget), authorizedCut, unauthorizedCut)
            == Survivors(rows, authorizedCut, unauthorizedCut)
    ensures CountExpired(rows, authorizedCut, unauthorizedCut) <= budget ==>
            CountExpired(Sweep(rows, authorizedCut, unauthorizedCut, budget), authorizedCut, unauthorizedCut) == 0
    decreases |rows|
  {
    if rows != [] {
      var hit := budget > 0 && ShouldRemove(rows[0].contact, authorizedCut, unauthorizedCut);
      var budget' := if hit then budget - 1 else budget;
      SweepBounds(rows[1..], authorizedCut, unauthorizedCut, budget');
      var rest := Sweep(rows[1..], authorizedCut, unauthorizedCut, budget');
      if !hit {
        var r := [rows[0]] + rest;
        assert r[0] == rows[0] && r[1..] == rest;
      }
    }
  }

  /** Auto-removal keeps the invariant. */
  lemma SweepKeepsInvariant(rows: seq<Row>, nextId: Id, authorizedCut: Time, unauthorizedCut: Time, budget: nat,
                            isEmail: string -> bool)
    requires StoreInvariant(rows, nextId, isEmail)
    ensures StoreInvariant(Sweep(rows, authorizedCut, unauthorizedCut, budget), nextId, isEmail)
  {
  }

  // ---------------------------------------------------------------------------------------------
  // Settings

  /** The configuration after a getter has read `key`: unchanged when set, else `value` written back. */
  function WithDefault(config: map<string, string>, key: string, value: string): (c: map<string, string>)
    ensures key in c && c[key] == (if key in config then config[key] else value)
    ensures forall k :: k != key ==> (k in c <==> k in config)
    ensures forall k :: k != key && k in config ==> c[k] == config[k]
  {
    if key in config then config else config[key := value]
  }

  /** The string setAutoRemoveActive() saves. */
  function StatusString(status: bool): string {
    if status then "true" else "false"
  }

  /** What isAutoRemoveActive() answers for a configuration: a missing key counts as 'true'. */
  predicate ActiveFlag(config: map<string, string>) {
    DefaultRemoveKey !in config || config[DefaultRemoveKey] == "true"
  }

  /** setAutoRemoveActive(b) followed by isAutoRemoveActive() answers b. */
  lemma ActiveFlagAfterSave(config: map<string, string>, status: bool)
    ensures ActiveFlag(config[DefaultRemoveKey := StatusString(status)]) == status
  {
  }

  /**
   * The validation in setAutoRemove(Un)Authorized(): the trimmed value is accepted exactly when
   * strtotime('now + ' . value) succeeds; the exception names the trimmed value.
   */
  function ValidatedDuration(haystack: string, parsesTime: string -> bool): (r: Result<string, Error>)
    ensures r.Ok? <==> parsesTime("now + " + TrimSpace(haystack))
    ensures r.Err? ==> r.error == InvalidDuration(TrimSpace(haystack))
    ensures r.Ok? ==> r.value == TrimSpace(haystack)
    ensures r.Ok? && r.value != [] ==> r.value[0] !in Whitespace && r.value[|r.value| - 1] !in Whitespace
    ensures r.Ok? ==> IsInfix(r.value, haystack)
  {
    var value := TrimSpace(haystack);
    TrimIsInfix(haystack, Whitespace);
    if parsesTime("now + " + value) then Ok(value) else Err(InvalidDuration(value))
  }

  /** Saving a value the validation accepted once more stores it unchanged. */
  lemma {:induction false} ValidatedDurationIsStable(haystack: string, parsesTime: string -> bool)
    requires ValidatedDuration(haystack, parsesTime).Ok?
    ensures ValidatedDuration(ValidatedDuration(haystack, parsesTime).value, parsesTime)
            == ValidatedDuration(haystack, parsesTime)
  {
    var value := ValidatedDuration(haystack, parsesTime).value;
    if value != [] {
      TrimOfTrimmed(value, Whitespace);
    }
  }

  // ---------------------------------------------------------------------------------------------
  // Registration

  /** A flush of one new row: inserted under the next identifier, or refused by a unique column. */
  function Admit(rows: seq<Row>, nextId: Id, rec: Record): (seq<Row>, Id) {
    if CanInsert(rows, rec) then (rows + [Row(nextId, rec)], nextId + 1) else (rows, nextId)
  }

  /**
   * flush() of several new rows in one transaction: each is inserted in turn under the next
   * identifier; if any would break a unique column the transaction rolls back and nothing is kept.
   */
  function InsertAll(rows: seq<Row>, nextId: Id, recs: seq<Record>): (r: Option<(seq<Row>, Id)>)
    decreases |recs|
  {
    if recs == [] then Some((rows, nextId))
    else if CanInsert(rows, recs[0]) then InsertAll(rows + [Row(nextId, recs[0])], nextId + 1, recs[1..])
    else None
  }

  /**
   * A successful flush appends one row per record, in order, under consecutive identifiers from
   * nextId on, and succeeds exactly when every record in turn fits the rows before it.
   */
  lemma {:induction false} InsertAllAppends(rows: seq<Row>, nextId: Id, recs: seq<Record>)
    ensures var r := InsertAll(rows, nextId, recs);
      r.Some? ==>
        && |r.value.0| == |rows| + |recs| && r.value.0[..|rows|] == rows
        && r.value.1 == nextId + |recs|
        && forall k :: 0 <= k < |recs| ==> r.value.0[|rows| + k] == Row(nextId + k, recs[k])
    decreases |recs|
  {
    if recs != [] && CanInsert(rows, recs[0]) {
      var next := rows + [Row(nextId, recs[0])];
      InsertAllAppends(next, nextId + 1, recs[1..]);
      var r := InsertAll(rows, nextId, recs);
      if r.Some? {
        assert r.value.0[..|rows|] == next[..|rows|];
        forall k | 0 <= k < |recs| ensures r.value.0[|rows| + k] == Row(nextId + k, recs[k]) {
          if k > 0 {
            assert r.value.0[|next| + (k - 1)] == Row(nextId + 1 + (k - 1), recs[1..][k - 1]);
          }
        }
      }
    }
  }

  /** A flush that succeeds inserts rows that each fit the table as it stood before them. */
  lemma {:induction false} InsertAllFits(rows: seq<Row>, nextId: Id, recs: seq<Record>, k: nat)
    requires InsertAll(rows, nextId, recs).Some? && k < |recs|
    ensures var all := InsertAll(rows, nextId, recs).value.0;
      |rows| + k <= |all| && CanInsert(all[..|rows| + k], recs[k])
    decreases |recs|
  {
    InsertAllAppends(rows, nextId, recs);
    var all := InsertAll(rows, nextId, recs).value.0;
    var next := rows + [Row(nextId, recs[0])];
    assert all == InsertAll(next, nextId + 1, recs[1..]).value.0;
    if k == 0 {
      assert all[..|rows|] == rows;
    } else {
      InsertAllFits(next, nextId + 1, recs[1..], k - 1);
    }
  }

  /** Two flushes in a row amount to one flush of both batches: both succeed or the pair fails. */
  lemma {:induction false} InsertAllAppend(rows: seq<Row>, nextId: Id, a: seq<Record>, b: seq<Record>)
    ensures InsertAll(rows, nextId, a + b)
            == (var first := InsertAll(rows, nextId, a);
                if first.None? then None else InsertAll(first.value.0, first.value.1, b))
    decreases |a|
  {
    if a != [] {
      assert (a + b)[0] == a[0] && (a + b)[1..] == a[1..] + b;
      if CanInsert(rows, a[0]) {
        InsertAllAppend(rows + [Row(nextId, a[0])], nextId + 1, a[1..], b);
      }
    } else {
      assert a + b == b;
    }
  }

  /** A successful transactional flush of well-formed records keeps the invariant. */
  lemma {:induction false} InsertAllKeepsInvariant(rows: seq<Row>, nextId: Id, recs: seq<Record>, isEmail: string -> bool)
    requires StoreInvariant(rows, nextId, isEmail)
    requires forall k :: 0 <= k < |recs| ==> WellFormed(recs[k], isEmail)
    requires InsertAll(rows, nextId, recs).Some?
    ensures StoreInvariant(InsertAll(rows, nextId, recs).value.0, InsertAll(rows, nextId, recs).value.1, isEmail)
    decreases |recs|
  {
    if recs != [] {
      InsertKeepsInvariant(rows, nextId, recs[0], isEmail);
      InsertAllKeepsInvariant(rows + [Row(nextId, recs[0])], nextId + 1, recs[1..], isEmail);
    }
  }

  /** What `new Newsletter($email, $source)` followed by authorize() stores for one address. */
  function AuthorizedContact(email: string, st: Stamp, token: string): Record {
    Initial(email, st.source, st.clientIp, token, st.now).Authorize(st.now, st.clientIp)
  }

  /**
   * bulkRegister as a value: every address in turn is constructed, authorized and flushed; an
   * invalid address is skipped. A refused insertion makes the flush throw, which closes the entity
   * manager (the third component); every later persist() then throws too, so every later address
   * is skipped. tokens[k] is the hash drawn for emails[k].
   */
  function BulkRows(rows: seq<Row>, nextId: Id, emails: seq<string>, tokens: seq<string>, st: Stamp,
                    isEmail: string -> bool): (seq<Row>, Id, bool)
    requires |tokens| == |emails|
    decreases |emails|
  {
    if emails == [] then (rows, nextId, false)
    else
      var n := |emails| - 1;
      var before := BulkRows(rows, nextId, emails[..n], tokens[..n], st, isEmail);
      BulkStep(before, emails[n], tokens[n], st, isEmail)
  }

  /**
   * One address of bulkRegister: skipped when the entity manager is closed or the address is
   * invalid; otherwise inserted, or refused, which closes the entity manager.
   */
  function BulkStep(before: (seq<Row>, Id, bool), email: string, token: string, st: Stamp,
                    isEmail: string -> bool): (seq<Row>, Id, bool)
  {
    var e := NormalizeEmail(email, isEmail);
    if before.2 || e.Err? then before
    else
      var rec := AuthorizedContact(e.value, st, token);
      var (r, n) := Admit(before.0, before.1, rec);
      (r, n, !CanInsert(before.0, rec))
  }

  /** BulkRows over one more address is one more BulkStep. */
  lemma BulkRowsStep(rows: seq<Row>, nextId: Id, emails: seq<string>, tokens: seq<string>, st: Stamp,
                     isEmail: string -> bool, i: nat)
    requires |tokens| == |emails| && i < |emails|
    ensures BulkRows(rows, nextId, emails[..i + 1], tokens[..i + 1], st, isEmail)
      == BulkStep(BulkRows(rows, nextId, emails[..i], tokens[..i], st, isEmail), emails[i], tokens[i], st, isEmail)
  {
    assert emails[..i + 1][..i] == emails[..i] && tokens[..i + 1][..i] == tokens[..i];
  }

  /**
   * bulkRegister only appends, and every appended row is the authorized contact of one input
   * address, built with the token drawn for it.
   */
  lemma {:induction false} BulkRowsAppends(rows: seq<Row>, nextId: Id, emails: seq<string>, tokens: seq<string>,
                                           st: Stamp, isEmail: string -> bool)
    requires |tokens| == |emails|
    ensures var (r, n, _) := BulkRows(rows, nextId, emails, tokens, st, isEmail);
      && |rows| <= |r| && r[..|rows|] == rows && n == nextId + (|r| - |rows|)
      && (forall j :: |rows| <= j < |r| ==> r[j].id == nextId + (j - |rows|))
      && (forall j :: |rows| <= j < |r| ==>
            (exists k :: 0 <= k < |emails| && r[j].contact == AuthorizedContact(StrToLower(emails[k]), st, tokens[k])))
    decreases |emails|
  {
    if emails != [] {
      var m := |emails| - 1;
      BulkRowsAppends(rows, nextId, emails[..m], tokens[..m], st, isEmail);
      var (r0, n0, _) := BulkRows(rows, nextId, emails[..m], tokens[..m], st, isEmail);
      var (r, n, _) := BulkRows(rows, nextId, emails, tokens, st, isEmail);
      forall j | |rows| <= j < |r|
        ensures exists k :: 0 <= k < |emails| && r[j].contact == AuthorizedContact(StrToLower(emails[k]), st, tokens[k])
      {
        if j < |r0| {
          assert r[j] == r0[j];
          var k :| 0 <= k < m && r0[j].contact == AuthorizedContact(StrToLower(emails[..m][k]), st, tokens[..m][k]);
          assert emails[..m][k] == emails[k] && tokens[..m][k] == tokens[k];
        } else {
          assert r[j].contact == AuthorizedContact(StrToLower(emails[m]), st, tokens[m]);
        }
      }
      if |r| > |r0| {
        assert r[..|rows|] == r0[..|rows|];
      }
    }
  }

  /**
   * Once a refused insertion has closed the entity manager, the rest of bulkRegister changes
   * nothing: the table after the whole list is the table after the prefix that closed it.
   */
  lemma {:induction false} BulkClosedStays(rows: seq<Row>, nextId: Id, emails: seq<string>, tokens: seq<string>,
                                           st: Stamp, isEmail: string -> bool, k: nat)
    requires |tokens| == |emails| && k <= |emails|
    requires BulkRows(rows, nextId, emails[..k], tokens[..k], st, isEmail).2
    ensures BulkRows(rows, nextId, emails, tokens, st, isEmail) == BulkRows(rows, nextId, emails[..k], tokens[..k], st, isEmail)
    decreases |emails|
  {
    if k < |emails| {
      var m := |emails| - 1;
      assert emails[..m][..k] == emails[..k] && tokens[..m][..k] == tokens[..k];
      BulkClosedStays(rows, nextId, emails[..m], tokens[..m], st, isEmail, k);
    } else {
      assert emails[..k] == emails && tokens[..k] == tokens;
    }
  }

  /**
   * A valid address that is already stored, at the head of the list, closes the entity manager:
   * nothing of the whole list is stored, however many new addresses follow.
   */
  lemma BulkStoredHeadDropsRest(rows: seq<Row>, nextId: Id, emails: seq<string>, tokens: seq<string>,
                                st: Stamp, isEmail: string -> bool)
    requires |tokens| == |emails| && emails != []
    requires NormalizeEmail(emails[0], isEmail).Ok? && EmailStored(rows, StrToLower(emails[0]))
    ensures BulkRows(rows, nextId, emails, tokens, st, isEmail) == (rows, nextId, true)
  {
    var row :| row in rows && row.contact.email == StrToLower(emails[0]);
    assert BulkRows(rows, nextId, emails[..0], tokens[..0], st, isEmail) == (rows, nextId, false);
    BulkRowsStep(rows, nextId, emails, tokens, st, isEmail, 0);
    BulkClosedStays(rows, nextId, emails, tokens, st, isEmail, 1);
  }

  /** The hash of every row. */
  predicate HashTaken(rows: seq<Row>, hash: string) {
    exists row :: row in rows && row.contact.hash == hash
  }

  /** An address is stored. */
  predicate EmailStored(rows: seq<Row>, email: string) {
    exists row :: row in rows && row.contact.email == email
  }

  /**
   * When the drawn tokens are distinct and none is already taken, bulkRegister leaves stored
   * (lower-cased), whether newly inserted or already present, every valid input address that it
   * reaches while the entity manager is still open.
   */
  lemma {:induction false} BulkRowsStoresValid(rows: seq<Row>, nextId: Id, emails: seq<string>, tokens: seq<string>,
                                               st: Stamp, isEmail: string -> bool)
    requires |tokens| == |emails|
    requires forall k, l :: 0 <= k < l < |tokens| ==> tokens[k] != tokens[l]
    requires forall k :: 0 <= k < |tokens| ==> !HashTaken(rows, tokens[k])
    ensures forall k :: 0 <= k < |emails| && NormalizeEmail(emails[k], isEmail).Ok?
                        && !BulkRows(rows, nextId, emails[..k], tokens[..k], st, isEmail).2 ==>
      EmailStored(BulkRows(rows, nextId, emails, tokens, st, isEmail).0, StrToLower(emails[k]))
    decreases |emails|
  {
    if emails != [] {
      var m := |emails| - 1;
      BulkRowsStoresValid(rows, nextId, emails[..m], tokens[..m], st, isEmail);
      BulkRowsAppends(rows, nextId, emails[..m], tokens[..m], st, isEmail);
      var (r0, n0, _) := BulkRows(rows, nextId, emails[..m], tokens[..m], st, isEmail);
      var r := BulkRows(rows, nextId, emails, tokens, st, isEmail).0;
      assert forall row :: row in r0 ==> row in r;
      forall k | 0 <= k < |emails| && NormalizeEmail(emails[k], isEmail).Ok?
                 && !BulkRows(rows, nextId, emails[..k], tokens[..k], st, isEmail).2
        ensures EmailStored(r, StrToLower(emails[k]))
      {
        if k < m {
          assert emails[..m][k] == emails[k];
          assert emails[..m][..k] == emails[..k] && tokens[..m][..k] == tokens[..k];
          var row :| row in r0 && row.contact.email == StrToLower(emails[k]);
        } else {
          LastAddressStored(rows, nextId, emails, tokens, st, isEmail);
        }
      }
    }
  }

  /** The last address of a bulk registration, when valid and reached open, is stored afterwards. */
  lemma LastAddressStored(rows: seq<Row>, nextId: Id, emails: seq<string>, tokens: seq<string>,
                          st: Stamp, isEmail: string -> bool)
    requires |tokens| == |emails| && emails != []
    requires forall k, l :: 0 <= k < l < |tokens| ==> tokens[k] != tokens[l]
    requires forall k :: 0 <= k < |tokens| ==> !HashTaken(rows, tokens[k])
    requires NormalizeEmail(emails[|emails| - 1], isEmail).Ok?
    requires !BulkRows(rows, nextId, emails[..|emails| - 1], tokens[..|emails| - 1], st, isEmail).2
    ensures EmailStored(BulkRows(rows, nextId, emails, tokens, st, isEmail).0, StrToLower(emails[|emails| - 1]))
  {
    var m := |emails| - 1;
    BulkRowsAppends(rows, nextId, emails[..m], tokens[..m], st, isEmail);
    var (r0, n0, _) := BulkRows(rows, nextId, emails[..m], tokens[..m], st, isEmail);
    var r := BulkRows(rows, nextId, emails, tokens, st, isEmail).0;
    var rec := AuthorizedContact(StrToLower(emails[m]), st, tokens[m]);
    assert r == Admit(r0, n0, rec).0;
    if !CanInsert(r0, rec) {
      var row :| row in r0 && (row.contact.email == rec.email || row.contact.hash == rec.hash);
    } else {
      assert r[|r| - 1].contact == rec;
    }
  }

  // ---------------------------------------------------------------------------------------------
  // State changes of one contact

  /**
   * authByHash: the contact with that hash is authorized unless it already is; an authorized
   * contact is left as it is, its authorization date included.
   */
  function AuthorizeByHash(rows: seq<Row>, hash: string, now: Time, clientIp: string): (r: Result<seq<Row>, LookupError>)
    ensures r.Err? <==> Lookup(rows, ByHash(hash)).Err?
    ensures r.Err? ==> r.error == Lookup(rows, ByHash(hash)).error
    ensures r.Ok? ==> |r.value| == |rows|
    ensures r.Ok? ==> var i := Lookup(rows, ByHash(hash)).value;
      && r.value[i].id == rows[i].id
      && (r.value[i].contact.IsActive() <==> !rows[i].contact.authorizedByUser || rows[i].contact.IsActive())
      && r.value[i].contact.authorizedByUser
      && (rows[i].contact.authorizedByUser ==> r.value == rows)
      && (!rows[i].contact.authorizedByUser ==> AuthorizedFrom(r.value[i].contact, rows[i].contact, now, clientIp))
      && (forall j :: 0 <= j < |rows| && j != i ==> r.value[j] == rows[j])
  {
    match Lookup(rows, ByHash(hash))
    case Err(e) => Err(e)
    case Ok(i) =>
      if rows[i].contact.authorizedByUser then Ok(rows)
      else Ok(rows[i := Row(rows[i].id, rows[i].contact.Authorize(now, clientIp))])
  }

  /** A second authByHash with the same hash, at any time and from any address, changes nothing. */
  lemma AuthorizeByHashIdempotent(rows: seq<Row>, hash: string, t1: Time, ip1: string, t2: Time, ip2: string)
    requires AuthorizeByHash(rows, hash, t1, ip1).Ok?
    ensures AuthorizeByHash(AuthorizeByHash(rows, hash, t1, ip1).value, hash, t2, ip2)
            == AuthorizeByHash(rows, hash, t1, ip1)
  {
    var i := Lookup(rows, ByHash(hash)).value;
    var after := AuthorizeByHash(rows, hash, t1, ip1).value;
    if !rows[i].contact.authorizedByUser {
      LookupAfterUpdate(rows, i, after[i], ByHash(hash));
      assert after == rows[i := after[i]];
    }
  }

  /**
   * cancelById (and the endpoint's actionCancel): the contact with that identifier is canceled with
   * the message; its authorization flag and date are kept and it becomes inactive.
   */
  function CancelWithId(rows: seq<Row>, id: Id, message: Option<string>, now: Time): (r: Result<seq<Row>, LookupError>)
    ensures r.Err? <==> Lookup(rows, ById(id)).Err?
    ensures r.Ok? ==> |r.value| == |rows|
    ensures r.Ok? ==> var i := Lookup(rows, ById(id)).value;
      && r.value[i].id == id
      && r.value[i].contact.canceled && !r.value[i].contact.IsActive()
      && r.value[i].contact.cancelMessage == message && r.value[i].contact.cancelDate == Some(now)
      && CanceledFrom(r.value[i].contact, rows[i].contact, message, now)
      && (forall j :: 0 <= j < |rows| && j != i ==> r.value[j] == rows[j])
    ensures r.Ok? ==> forall j :: 0 <= j < |rows| ==>
      && r.value[j].contact.authorizedByUser == rows[j].contact.authorizedByUser
      && r.value[j].contact.authorizedDate == rows[j].contact.authorizedDate
  {
    match Lookup(rows, ById(id))
    case Err(e) => Err(e)
    case Ok(i) => Ok(rows[i := Row(rows[i].id, rows[i].contact.Cancel(message, now))])
  }

  // ---------------------------------------------------------------------------------------------
  // Source types

  const NullSourceKey := "--null--"
  const UnknownSourceLabel := "(unknown)"

  /** PHP's `?:` treats null, '' and '0' as false. */
  predicate Falsy(source: Option<string>) {
    source.None? || source.value == "" || source.value == "0"
  }

  /** The key getSourceTypes() files a source under. */
  function SourceKey(source: Option<string>): string {
    if Falsy(source) then NullSourceKey else source.value
  }

  /** The label getSourceTypes() shows for a source. */
  function SourceLabel(source: Option<string>): string {
    if Falsy(source) then UnknownSourceLabel else source.value
  }

  /** SELECT newsletter.source: the source column of every row. */
  function Sources(rows: seq<Row>): (r: seq<Option<string>>)
    ensures |r| == |rows| && forall i :: 0 <= i < |rows| ==> r[i] == rows[i].contact.source
  {
    seq(|rows|, i requires 0 <= i < |rows| => rows[i].contact.source)
  }

  /**
   * A real source is listed under itself; every falsy source shares the key '--null--' labelled
   * '(unknown)', and that key can only otherwise come from a source literally named '--null--'.
   */
  lemma SourceEntry(source: Option<string>)
    ensures SourceKey(source) != NullSourceKey ==> SourceLabel(source) == SourceKey(source)
    ensures SourceKey(source) == NullSourceKey ==>
      SourceLabel(source) == UnknownSourceLabel || SourceLabel(source) == NullSourceKey
    ensures Falsy(source) ==> SourceKey(source) == NullSourceKey && SourceLabel(source) == UnknownSourceLabel
  {
  }

  // ---------------------------------------------------------------------------------------------
  // Known contacts

  /**
   * The `$known` / `$return` loops of loadContacts() and postAnalyseEmails(): each given address
   * mapped to whether a row holds exactly that address.
   */
  method MarkKnown(rows: seq<Row>, emails: seq<string>) returns (m: map<string, bool>)
    ensures forall e :: e in m <==> e in emails
    ensures forall e :: e in m ==> (m[e] <==> EmailStored(rows, e))
  {
    var known: set<string> := {};
    for i := 0 to |rows|
      invariant forall e :: e in known <==> e in emails && exists j :: 0 <= j < i && rows[j].contact.email == e
    {
      if rows[i].contact.email in emails {
        known := known + {rows[i].contact.email};
      }
    }
    m := map[];
    for i := 0 to |emails|
      invariant forall e :: e in m <==> e in emails[..i]
      invariant forall e :: e in m ==> (m[e] <==> e in known)
    {
      assert emails[..i + 1] == emails[..i] + [emails[i]];
      m := m[emails[i] := emails[i] in known];
    }
    assert emails[..|emails|] == emails;
    forall e | e in m ensures m[e] <==> EmailStored(rows, e) {
      if EmailStored(rows, e) {
        var row :| row in rows && row.contact.email == e;
        var j :| 0 <= j < |rows| && rows[j] == row;
      }
    }
  }

  // ---------------------------------------------------------------------------------------------
  // The manager

  /**
   * The manager with its table, the next auto-increment value and the configuration namespace.
   * `isEmail` is Validators::isEmail, `parsesTime(s)` says strtotime(s) !== false and
   * `shiftTime(t, s)` is DateTime::modify(s) applied to the time t.
   */
  class NewsletterManager {
    const isEmail: string -> bool
    const parsesTime: string -> bool
    const shiftTime: (Time, string) -> Time
    var rows: seq<Row>
    var nextId: Id
    var config: map<string, string>

    ghost predicate Valid()
      reads this
    {
      && StoreInvariant(rows, nextId, isEmail)
      && parsesTime("now + " + DefaultAuthorizedRetention)
      && parsesTime("now + " + DefaultUnAuthorizedRetention)
    }

    /** A fresh installation: an empty table and an empty configuration namespace. */
    constructor (isEmail: string -> bool, parsesTime: string -> bool, shiftTime: (Time, string) -> Time)
      requires parsesTime("now + " + DefaultAuthorizedRetention)
      requires parsesTime("now + " + DefaultUnAuthorizedRetention)
      ensures Valid() && rows == [] && config == map[]
      ensures this.isEmail == isEmail && this.parsesTime == parsesTime && this.shiftTime == shiftTime
    {
      this.isEmail := isEmail;
      this.parsesTime := parsesTime;
      this.shiftTime := shiftTime;
      rows := [];
      nextId := 1;
      config := map[];
    }

    /** The configuration after autoRemove() has read both retention settings. */
    function AutoRemoveConfig(config: map<string, string>): map<string, string> {
      WithDefault(WithDefault(config, AutoRemoveAuthorizedKey, DefaultAuthorizedRetention),
                  AutoRemoveUnAuthorizedKey, DefaultUnAuthorizedRetention)
    }

    /** The table after autoRemove() at time `now` under the given configuration. */
    function AutoRemoved(rows: seq<Row>, config: map<string, string>, now: Time): seq<Row> {
      var c := AutoRemoveConfig(config);
      Sweep(rows, shiftTime(now, "- " + c[AutoRemoveAuthorizedKey]),
            shiftTime(now, "- " + c[AutoRemoveUnAuthorizedKey]), AutoRemoveLimit)
    }

    /** The tail of register(): ask isAutoRemoveActive() and run autoRemove() when it says true. */
    function Housekeeping(rows: seq<Row>, config: map<string, string>, now: Time): (seq<Row>, map<string, string>) {
      var c := WithDefault(config, DefaultRemoveKey, "true");
      if ActiveFlag(config) then (AutoRemoved(rows, c, now), AutoRemoveConfig(c)) else (rows, c)
    }

    /** getNewsletterByEmail: the single row holding exactly this (not lower-cased) address. */
    function GetNewsletterByEmail(email: string): (r: Result<nat, LookupError>)
      reads this
      ensures r.Ok? ==> r.value < |rows| && rows[r.value].contact.email == email
      ensures r == Err(NoResult) <==> !EmailStored(rows, email)
      ensures r == Lookup(rows, ByEmail(email))
    {
      Lookup(rows, ByEmail(email))
    }

    /** getNewsletterById: the single row with this identifier. */
    function GetNewsletterById(id: Id): (r: Result<nat, LookupError>)
      reads this
      ensures r.Ok? ==> r.value < |rows| && rows[r.value].id == id
      ensures r == Err(NoResult) <==> forall row :: row in rows ==> row.id != id
      ensures r == Lookup(rows, ById(id))
    {
      Lookup(rows, ById(id))
    }

    method SetAutoRemoveActive(status: bool)
      modifies this`config
      ensures config == old(config)[DefaultRemoveKey := StatusString(status)]
    {
      config := config[DefaultRemoveKey := StatusString(status)];
    }

    /** isAutoRemoveActive: a missing flag is saved as 'true'; the answer is whether the flag is 'true'. */
    method IsAutoRemoveActive() returns (r: bool)
      modifies this`config
      ensures config == WithDefault(old(config), DefaultRemoveKey, "true")
      ensures r == ActiveFlag(old(config)) && (r <==> config[DefaultRemoveKey] == "true")
    {
      if DefaultRemoveKey !in config {
        SetAutoRemoveActive(true);
        return true;
      }
      return config[DefaultRemoveKey] == "true";
    }

    /** setAutoRemoveAuthorized: trims, refuses what strtotime cannot read, saves the rest. */
    method SetAutoRemoveAuthorized(haystack: string) returns (o: Outcome<Error>)
      modifies this`config
      ensures var v := ValidatedDuration(haystack, parsesTime);
        && (v.Ok? ==> o == Pass && config == old(config)[AutoRemoveAuthorizedKey := v.value])
        && (v.Err? ==> o == Fail(v.error) && config == old(config))
    {
      var value := TrimSpace(haystack);
      if !parsesTime("now + " + value) {
        return Fail(InvalidDuration(value));
      }
      config := config[AutoRemoveAuthorizedKey := value];
      return Pass;
    }

    /** setAutoRemoveUnAuthorized: the same check and save for the unauthorized retention. */
    method SetAutoRemoveUnAuthorized(haystack: string) returns (o: Outcome<Error>)
      modifies this`config
      ensures var v := ValidatedDuration(haystack, parsesTime);
        && (v.Ok? ==> o == Pass && config == old(config)[AutoRemoveUnAuthorizedKey := v.value])
        && (v.Err? ==> o == Fail(v.error) && config == old(config))
    {
      var value := TrimSpace(haystack);
      if !parsesTime("now + " + value) {
        return Fail(InvalidDuration(value));
      }
      config := config[AutoRemoveUnAuthorizedKey := value];
      return Pass;
    }

    /** getAutoRemoveAuthorized: the stored retention, or '99 years' saved through the setter. */
    method GetAutoRemoveAuthorized() returns (r: string)
      requires Valid()
      modifies this`config
      ensures Valid()
      ensures config == WithDefault(old(config), AutoRemoveAuthorizedKey, DefaultAuthorizedRetention)
      ensures r == config[AutoRemoveAuthorizedKey]
    {
      if AutoRemoveAuthorizedKey in config {
        return config[AutoRemoveAuthorizedKey];
      }
      TrimOfTrimmed(DefaultAuthorizedRetention, Whitespace);
      var o := SetAutoRemoveAuthorized(DefaultAuthorizedRetention);
      r := DefaultAuthorizedRetention;
    }

    /** getAutoRemoveUnAuthorized: the stored retention, or '14 days' saved through the setter. */
    method GetAutoRemoveUnAuthorized() returns (r: string)
      requires Valid()
      modifies this`config
      ensures Valid()
      ensures config == WithDefault(old(config), AutoRemoveUnAuthorizedKey, DefaultUnAuthorizedRetention)
      ensures r == config[AutoRemoveUnAuthorizedKey]
    {
      if AutoRemoveUnAuthorizedKey in config {
        return config[AutoRemoveUnAuthorizedKey];
      }
      TrimOfTrimmed(DefaultUnAuthorizedRetention, Whitespace);
      var o := SetAutoRemoveUnAuthorized(DefaultUnAuthorizedRetention);
      r := DefaultUnAuthorizedRetention;
    }

    /**
     * autoRemove: reads both retention settings, then deletes the first 1000 rows that are
     * authorized no later than now minus the authorized retention, or unauthorized and inserted
     * no later than now minus the unauthorized retention.
     */
    method AutoRemove(now: Time)
      requires Valid()
      modifies this
      ensures Valid() && nextId == old(nextId)
      ensures config == AutoRemoveConfig(old(config))
      ensures rows == AutoRemoved(old(rows), old(config), now)
    {
      var authorizedRetention := GetAutoRemoveAuthorized();
      var unauthorizedRetention := GetAutoRemoveUnAuthorized();
      var authorizedCut := shiftTime(now, "- " + authorizedRetention);
      var unauthorizedCut := shiftTime(now, "- " + unauthorizedRetention);
      var kept := SweepRows(rows, authorizedCut, unauthorizedCut, AutoRemoveLimit);
      SweepKeepsInvariant(rows, nextId, authorizedCut, unauthorizedCut, AutoRemoveLimit, isEmail);
      rows := kept;
    }

    /** The deletion loop of autoRemove: the first `limit` matching rows go, the others stay in order. */
    static method SweepRows(rows: seq<Row>, authorizedCut: Time, unauthorizedCut: Time, limit: nat)
      returns (kept: seq<Row>)
      ensures kept == Sweep(rows, authorizedCut, unauthorizedCut, limit)
    {
      kept := [];
      var budget := limit;
      for i := 0 to |rows|
        invariant kept + Sweep(rows[i..], authorizedCut, unauthorizedCut, budget)
                  == Sweep(rows, authorizedCut, unauthorizedCut, limit)
      {
        SweepUnfold(rows, i, authorizedCut, unauthorizedCut, budget);
        if budget > 0 && ShouldRemove(rows[i].contact, authorizedCut, unauthorizedCut) {
          budget := budget - 1;
        } else {
          assert kept + ([rows[i]] + Sweep(rows[i + 1..], authorizedCut, unauthorizedCut, budget))
              == (kept + [rows[i]]) + Sweep(rows[i + 1..], authorizedCut, unauthorizedCut, budget);
          kept := kept + [rows[i]];
        }
      }
      assert rows[|rows|..] == [];
    }
  
    /**
     * flush() of persisted new contacts: one transaction that inserts them in order or, when a
     * unique column would be broken, rolls back and reports the violation.
     */
    method Flush(pending: seq<Record>) returns (ok: bool)
      requires Valid()
      requires forall k :: 0 <= k < |pending| ==> WellFormed(pending[k], isEmail)
      modifies this
      ensures Valid() && config == old(config)
      ensures var f := InsertAll(old(rows), old(nextId), pending);
        && ok == f.Some?
        && (f.Some? ==> (rows, nextId) == f.value)
        && (f.None? ==> rows == old(rows) && nextId == old(nextId))
    {
      var staged, stagedId := rows, nextId;
      for i := 0 to |pending|
        invariant rows == old(rows) && nextId == old(nextId) && config == old(config)
        invariant StoreInvariant(staged, stagedId, isEmail)
        invariant InsertAll(rows, nextId, pending) == InsertAll(staged, stagedId, pending[i..])
      {
        assert pending[i..][0] == pending[i] && pending[i..][1..] == pending[i + 1..];
        if !CanInsert(staged, pending[i]) {
          return false;
        }
        InsertKeepsInvariant(staged, stagedId, pending[i], isEmail);
        staged, stagedId := staged + [Row(stagedId, pending[i])], stagedId + 1;
      }
      rows, nextId := staged, stagedId;
      return true;
    }

    /**
     * register: an address already stored (looked up as given, before lower-casing) adds nothing;
     * otherwise the new contact is constructed, flushed and sent its confirmation mail. When no
     * exception escaped, auto-removal runs if it is switched on. `token` stands for
     * Random::generate(16) and `mailSent` for the outcome of mail delivery, which happens after
     * the row was flushed.
     */
    method Register(email: string, st: Stamp, token: string, mailSent: bool) returns (o: Outcome<Error>)
      requires Valid() && |token| == HashLength
      modifies this
      ensures Valid()
      ensures var newRec := Initial(StrToLower(email), st.source, st.clientIp, token, st.now);
        var added := old(rows) + [Row(old(nextId), newRec)];
        var normalized := NormalizeEmail(email, isEmail);
        if Lookup(old(rows), ByEmail(email)).Ok? then
          o == Pass && nextId == old(nextId) && (rows, config) == Housekeeping(old(rows), old(config), st.now)
        else if normalized.Err? then
          o == Fail(Invalid(normalized.error)) && rows == old(rows) && nextId == old(nextId) && config == old(config)
        else if !CanInsert(old(rows), newRec) then
          o == Fail(ConstraintViolation) && rows == old(rows) && nextId == old(nextId) && config == old(config)
        else if !mailSent then
          o == Fail(MailFailed) && rows == added && nextId == old(nextId) + 1 && config == old(config)
        else
          o == Pass && nextId == old(nextId) + 1 && (rows, config) == Housekeeping(added, old(config), st.now)
    {
      if GetNewsletterByEmail(email).Err? {
        var created := Newsletter.Create(email, st.source, isEmail, st.clientIp, token, st.now);
        if created.Err? {
          return Fail(Invalid(created.error));
        }
        var rec := created.value.View();
        if !CanInsert(rows, rec) {
          return Fail(ConstraintViolation);
        }
        InsertKeepsInvariant(rows, nextId, rec, isEmail);
        rows := rows + [Row(nextId, rec)];
        nextId := nextId + 1;
        if !mailSent {
          return Fail(MailFailed);
        }
      }
      var active := IsAutoRemoveActive();
      if active {
        AutoRemove(st.now);
      }
      return Pass;
    }

    /**
     * bulkRegister: each address is constructed, authorized at once and flushed; an invalid
     * address is silently skipped, and so is every address after the first refused insertion,
     * whose failed flush closes the entity manager. tokens[k] is drawn for emails[k].
     */
    method BulkRegister(emails: seq<string>, st: Stamp, tokens: seq<string>)
      requires Valid() && |tokens| == |emails|
      requires forall k :: 0 <= k < |tokens| ==> |tokens[k]| == HashLength
      modifies this
      ensures Valid() && config == old(config)
      ensures var (r, n, _) := BulkRows(old(rows), old(nextId), emails, tokens, st, isEmail); rows == r && nextId == n
    {
      var closed := false;
      for i := 0 to |emails|
        invariant Valid() && config == old(config)
        invariant (rows, nextId, closed) == BulkRows(old(rows), old(nextId), emails[..i], tokens[..i], st, isEmail)
      {
        BulkRowsStep(old(rows), old(nextId), emails, tokens, st, isEmail, i);
        closed := RegisterAuthorized(emails[i], st, tokens[i], closed);
      }
      assert emails[..|emails|] == emails && tokens[..|tokens|] == tokens;
    }

    /**
     * The loop body of bulkRegister for one address; `closed` says whether an earlier failed
     * flush has closed the entity manager, and `closedAfter` whether it is closed afterwards.
     */
    method RegisterAuthorized(email: string, st: Stamp, token: string, closed: bool) returns (closedAfter: bool)
      requires Valid() && |token| == HashLength
      modifies this
      ensures Valid() && config == old(config)
      ensures (rows, nextId, closedAfter) == BulkStep((old(rows), old(nextId), closed), email, token, st, isEmail)
    {
      closedAfter := closed;
      var created := Newsletter.Create(email, st.source, isEmail, st.clientIp, token, st.now);
      if created.Ok? {
        var contact := created.value;
        var initial := contact.View();
        contact.Authorize(st.now, st.clientIp);
        var rec := contact.View();
        TransitionsPreserveWellFormed(initial, isEmail, st.now, st.clientIp, None);
        if closed {
          // persist() on a closed entity manager throws; the address is skipped
        } else if CanInsert(rows, rec) {
          InsertKeepsInvariant(rows, nextId, rec, isEmail);
          rows := rows + [Row(nextId, rec)];
          nextId := nextId + 1;
        } else {
          closedAfter := true;
        }
      }
    }

    /**
     * authByHash: a lookup failure propagates; a found contact is authorized unless it already is.
     * Errors of authorize() and flush() would be logged and swallowed; neither can fail here.
     */
    method AuthByHash(hash: string, now: Time, clientIp: string) returns (o: Outcome<Error>)
      requires Valid()
      modifies this
      ensures Valid() && nextId == old(nextId) && config == old(config)
      ensures var e := AuthorizeByHash(old(rows), hash, now, clientIp);
        && (e.Ok? ==> o == Pass && rows == e.value)
        && (e.Err? ==> o == Fail(NotFound(e.error)) && rows == old(rows))
    {
      var found := Lookup(rows, ByHash(hash));
      if found.Err? {
        return Fail(NotFound(found.error));
      }
      var i := found.value;
      if !rows[i].contact.authorizedByUser {
        var contact := new Newsletter.FromRecord(rows[i].contact);
        contact.Authorize(now, clientIp);
        TransitionsPreserveWellFormed(rows[i].contact, isEmail, now, clientIp, None);
        UpdateKeepsInvariant(rows, nextId, i, contact.View(), isEmail);
        rows := rows[i := Row(rows[i].id, contact.View())];
      }
      return Pass;
    }

    /** unregisterById: deletes the row with this identifier; a missing identifier throws. */
    method UnregisterById(id: Id) returns (o: Outcome<Error>)
      requires Valid()
      modifies this
      ensures Valid() && nextId == old(nextId) && config == old(config)
      ensures var found := Lookup(old(rows), ById(id));
        && (found.Ok? ==>
              o == Pass && rows == WithoutId(old(rows), id)
              && rows == old(rows)[..found.value] + old(rows)[found.value + 1..])
        && (found.Err? ==> o == Fail(NotFound(found.error)) && rows == old(rows))
    {
      var found := GetNewsletterById(id);
      if found.Err? {
        return Fail(NotFound(found.error));
      }
      WithoutPresentId(rows, found.value);
      DeleteKeepsInvariant(rows, nextId, id, isEmail);
      rows := WithoutId(rows, id);
      return Pass;
    }

    /** unregisterByEmail: deletes the row holding exactly this address, if any; never throws. */
    method UnregisterByEmail(email: string)
      requires Valid()
      modifies this
      ensures Valid() && nextId == old(nextId) && config == old(config)
      ensures !EmailStored(rows, email)
      ensures EmailStored(old(rows), email) ==> |rows| == |old(rows)| - 1
      ensures !EmailStored(old(rows), email) ==> rows == old(rows)
      ensures forall row :: row in old(rows) && row.contact.email != email ==> row in rows
    {
      KeyLookupsAreUnambiguous(rows, ByEmail(email));
      var found := GetNewsletterByEmail(email);
      if found.Ok? {
        DeleteStoredEmail(rows, nextId, found.value, email, isEmail);
        rows := WithoutId(rows, rows[found.value].id);
      }
    }

    /** cancelById: the contact with this identifier is canceled; a missing identifier throws. */
    method CancelById(id: Id, message: Option<string>, now: Time) returns (o: Outcome<Error>)
      requires Valid()
      modifies this
      ensures Valid() && nextId == old(nextId) && config == old(config)
      ensures var e := CancelWithId(old(rows), id, message, now);
        && (e.Ok? ==> o == Pass && rows == e.value)
        && (e.Err? ==> o == Fail(NotFound(e.error)) && rows == old(rows))
    {
      var found := GetNewsletterById(id);
      if found.Err? {
        return Fail(NotFound(found.error));
      }
      var i := found.value;
      var contact := new Newsletter.FromRecord(rows[i].contact);
      contact.Cancel(message, now);
      TransitionsPreserveWellFormed(rows[i].contact, isEmail, now, "", message);
      UpdateKeepsInvariant(rows, nextId, i, contact.View(), isEmail);
      rows := rows[i := Row(rows[i].id, contact.View())];
      return Pass;
    }

    /**
     * getSourceTypes: every distinct source, a falsy one filed under '--null--' labelled
     * '(unknown)', any other under itself.
     */
    method GetSourceTypes() returns (r: map<string, string>)
      ensures forall k :: k in r <==> exists row :: row in rows && SourceKey(row.contact.source) == k
      ensures forall k :: k in r ==>
        exists row :: row in rows && SourceKey(row.contact.source) == k && r[k] == SourceLabel(row.contact.source)
    {
      var distinct := ArrayUnique(Sources(rows));
      r := map[];
      for i := 0 to |distinct|
        invariant forall k :: k in r <==> exists j :: 0 <= j < i && SourceKey(distinct[j]) == k
        invariant forall k :: k in r ==> exists j :: 0 <= j < i && SourceKey(distinct[j]) == k && r[k] == SourceLabel(distinct[j])
      {
        r := r[SourceKey(distinct[i]) := SourceLabel(distinct[i])];
      }
      forall k | k in r
        ensures exists row :: row in rows && SourceKey(row.contact.source) == k && r[k] == SourceLabel(row.contact.source)
      {
        var j :| 0 <= j < |distinct| && SourceKey(distinct[j]) == k && r[k] == SourceLabel(distinct[j]);
        assert distinct[j] in Sources(rows);
        var p :| 0 <= p < |rows| && Sources(rows)[p] == distinct[j];
        assert rows[p] in rows;
      }
      forall k | exists row :: row in rows && SourceKey(row.contact.source) == k
        ensures k in r
      {
        var row :| row in rows && SourceKey(row.contact.source) == k;
        var p :| 0 <= p < |rows| && rows[p] == row;
        assert Sources(rows)[p] in distinct;
        var j :| 0 <= j < |distinct| && distinct[j] == Sources(rows)[p];
      }
    }

    /**
     * loadContacts: the address list cached under the hash (`cached`, None when the cache holds
     * no array) with each address mapped to whether it is stored.
     */
    method LoadContacts(cached: Option<seq<string>>) returns (r: map<string, bool>)
      ensures cached.None? ==> r == map[]
      ensures cached.Some? ==> forall e :: e in r <==> e in cached.value
      ensures cached.Some? ==> forall e :: e in r ==> (r[e] <==> EmailStored(rows, e))
    {
      if cached.None? {
        return map[];
      }
      r := MarkKnown(rows, cached.value);
    }
  }
}
