/**
 * The subscription record (src/Entity/Newsletter.php). `Record` is the value of all persisted
 * columns; class `Newsletter` is the entity whose methods change those columns in place.
 * The clock, the client IP (Helpers::userIp) and the random token (Random::generate(16)) are
 * passed in; the e-mail validator (Validators::isEmail) is a function parameter.
 */
module Entity {
  import opened Wrappers
  import opened Builtins

  /** A point in time, as seconds on the request clock. */
  type Time = int

  const MaxEmailLength: nat := 128
  const MaxSourceLength: nat := 32
  const HashLength: nat := 16

  /** All persisted columns of one contact except its identifier. */
  datatype Record = Record(
    email: string,
    hash: string,
    ip: Option<string>,
    authorizedByUser: bool,
    canceled: bool,
    cancelMessage: Option<string>,
    source: Option<string>,
    authorizedDate: Option<Time>,
    cancelDate: Option<Time>,
    insertedDate: Time)
  {
    /** isActive(): confirmed and not opted out. */
    predicate IsActive() {
      authorizedByUser && !canceled
    }

    /** The columns after authorize(). */
    function Authorize(now: Time, clientIp: string): Record {
      this.(authorizedByUser := true, authorizedDate := Some(now), canceled := false, cancelDate := None,
            ip := if ip.None? then Some(clientIp) else ip)
    }

    /** The columns after unAuthorize(). */
    function UnAuthorize(): Record {
      this.(authorizedByUser := false)
    }

    /** The columns after cancel(message). */
    function Cancel(message: Option<string>, now: Time): Record {
      this.(canceled := true, cancelMessage := message, cancelDate := Some(now))
    }
  }

  /**
   * What authorize() promises of the columns, field by field: confirmed at `now` and no longer
   * canceled, the IP recorded only when none was, the address, token, source, insertion date and
   * cancel message kept.
   */
  predicate AuthorizedFrom(after: Record, before: Record, now: Time, clientIp: string) {
    && after.authorizedByUser && after.authorizedDate == Some(now)
    && !after.canceled && after.cancelDate == None
    && after.ip == (if before.ip.None? then Some(clientIp) else before.ip)
    && after.email == before.email && after.hash == before.hash && after.source == before.source
    && after.insertedDate == before.insertedDate && after.cancelMessage == before.cancelMessage
  }

  /**
   * What cancel(message) promises of the columns: canceled at `now` with the message, every other
   * column (confirmation flag and date included) kept.
   */
  predicate CanceledFrom(after: Record, before: Record, message: Option<string>, now: Time) {
    && after.canceled && after.cancelMessage == message && after.cancelDate == Some(now)
    && after.authorizedByUser == before.authorizedByUser && after.authorizedDate == before.authorizedDate
    && after.email == before.email && after.hash == before.hash && after.ip == before.ip
    && after.source == before.source && after.insertedDate == before.insertedDate
  }

  datatype EntityError = InvalidEmail(email: string) | EmailTooLong(email: string)

  /**
   * The constructor's e-mail handling: lower-case, then reject an address the validator refuses,
   * then reject one longer than 128 characters.
   */
  function NormalizeEmail(email: string, isEmail: string -> bool): (r: Result<string, EntityError>)
    ensures r.Ok? <==> isEmail(StrToLower(email)) && |email| <= MaxEmailLength
    ensures r.Ok? ==> r.value == StrToLower(email) && IsLowerCase(r.value) && |r.value| <= MaxEmailLength
    ensures r.Err? ==> r.error.email == StrToLower(email)
    ensures r == Err(EmailTooLong(StrToLower(email))) ==> isEmail(StrToLower(email))
  {
    var lowered := StrToLower(email);
    if !isEmail(lowered) then Err(InvalidEmail(lowered))
    else if |lowered| > MaxEmailLength then Err(EmailTooLong(lowered))
    else Ok(lowered)
  }

  /** The constructor's source handling: null stays null, anything else keeps its first 32 characters. */
  function TruncateSource(source: Option<string>): (r: Option<string>)
    ensures r.None? <==> source.None?
    ensures r.Some? ==> |r.value| <= MaxSourceLength && |r.value| <= |source.value|
    ensures r.Some? ==> r.value == source.value[..|r.value|]
    ensures r.Some? && |source.value| <= MaxSourceLength ==> r == source
  {
    if source.None? then None else Some(Truncate(source.value, MaxSourceLength))
  }

  /** The columns of a freshly constructed contact for an already normalized address. */
  function Initial(email: string, source: Option<string>, clientIp: string, hash: string, now: Time): Record {
    Record(email, hash, Some(clientIp), false, false, None, TruncateSource(source), None, None, now)
  }

  /**
   * What holds of every record the code produces: a valid lower-case address within the column width,
   * a 16-character token, a source within its column width, a cancel date exactly when canceled and
   * an authorization date whenever authorized.
   */
  ghost predicate WellFormed(r: Record, isEmail: string -> bool) {
    && isEmail(r.email) && IsLowerCase(r.email) && |r.email| <= MaxEmailLength
    && |r.hash| == HashLength
    && (r.source.Some? ==> |r.source.value| <= MaxSourceLength)
    && (r.canceled <==> r.cancelDate.Some?)
    && (r.authorizedByUser ==> r.authorizedDate.Some?)
  }

  /** No recorded event precedes the insertion. */
  predicate Chronological(r: Record) {
    && (r.authorizedDate.Some? ==> r.insertedDate <= r.authorizedDate.value)
    && (r.cancelDate.Some? ==> r.insertedDate <= r.cancelDate.value)
  }

  /** A fresh record is well formed, chronological, unauthorized, not canceled and inactive. */
  lemma InitialIsWellFormed(email: string, source: Option<string>, isEmail: string -> bool,
                            clientIp: string, hash: string, now: Time)
    requires NormalizeEmail(email, isEmail).Ok? && |hash| == HashLength
    ensures var r := Initial(NormalizeEmail(email, isEmail).value, source, clientIp, hash, now);
      WellFormed(r, isEmail) && Chronological(r) && !r.IsActive() && !r.authorizedByUser && !r.canceled
  {
  }

  /**
   * The three transitions keep a record well formed, and chronological as long as the clock does
   * not run backwards past the insertion.
   */
  lemma TransitionsPreserveWellFormed(r: Record, isEmail: string -> bool, now: Time, clientIp: string,
                                      message: Option<string>)
    requires WellFormed(r, isEmail)
    ensures WellFormed(r.Authorize(now, clientIp), isEmail)
    ensures WellFormed(r.UnAuthorize(), isEmail)
    ensures WellFormed(r.Cancel(message, now), isEmail)
    ensures Chronological(r) && r.insertedDate <= now ==>
      Chronological(r.Authorize(now, clientIp)) && Chronological(r.UnAuthorize())
      && Chronological(r.Cancel(message, now))
  {
  }

  /** Authorizing makes a contact active; canceling makes it inactive and keeps the authorization flag. */
  lemma ActivityAfterTransitions(r: Record, now: Time, clientIp: string, message: Option<string>)
    ensures r.Authorize(now, clientIp).IsActive()
    ensures !r.Cancel(message, now).IsActive()
    ensures r.Cancel(message, now).authorizedByUser == r.authorizedByUser
    ensures r.Cancel(message, now).Authorize(now, clientIp).IsActive()
    ensures !r.Authorize(now, clientIp).UnAuthorize().IsActive()
  {
  }

  /**
   * Authorizing twice is authorizing once at the later time: the date is refreshed and the IP
   * captured by the first call is kept.
   */
  lemma AuthorizeTwice(r: Record, t1: Time, t2: Time, ip1: string, ip2: string)
    ensures r.Authorize(t1, ip1).Authorize(t2, ip2) == r.Authorize(t2, ip1)
  {
  }

  /** The contact entity. Its identifier belongs to the store (see Manager.Row). */
  class Newsletter {
    var email: string
    var hash: string
    var ip: Option<string>
    var authorizedByUser: bool
    var canceled: bool
    var cancelMessage: Option<string>
    var source: Option<string>
    var authorizedDate: Option<Time>
    var cancelDate: Option<Time>
    var insertedDate: Time

    /** The persisted columns. */
    function View(): Record
      reads this
    {
      Record(email, hash, ip, authorizedByUser, canceled, cancelMessage, source, authorizedDate,
             cancelDate, insertedDate)
    }

    /** Field initialisation of __construct, given an address that passed NormalizeEmail. */
    constructor (normalized: string, source: Option<string>, clientIp: string, hash: string, now: Time)
      ensures email == normalized && this.hash == hash && ip == Some(clientIp)
      ensures !authorizedByUser && !canceled
      ensures cancelMessage == None && authorizedDate == None && cancelDate == None
      ensures this.source == TruncateSource(source) && insertedDate == now
      ensures View() == Initial(normalized, source, clientIp, hash, now)
    {
      email := normalized;
      ip := Some(clientIp);
      this.hash := hash;
      this.source := TruncateSource(source);
      insertedDate := now;
      authorizedByUser := false;
      canceled := false;
      cancelMessage := None;
      authorizedDate := None;
      cancelDate := None;
    }

    /** Loading a stored row into an entity (what the ORM does before a mutator runs). */
    constructor FromRecord(r: Record)
      ensures View() == r
    {
      email := r.email;
      hash := r.hash;
      ip := r.ip;
      authorizedByUser := r.authorizedByUser;
      canceled := r.canceled;
      cancelMessage := r.cancelMessage;
      source := r.source;
      authorizedDate := r.authorizedDate;
      cancelDate := r.cancelDate;
      insertedDate := r.insertedDate;
    }

    /**
     * __construct: lower-case and validate the address (throwing InvalidArgumentException when it is
     * not an e-mail or longer than 128 characters), then build the fresh entity.
     */
    static method Create(email: string, source: Option<string>, isEmail: string -> bool, clientIp: string,
                         hash: string, now: Time) returns (r: Result<Newsletter, EntityError>)
      requires |hash| == HashLength
      ensures r.Ok? <==> NormalizeEmail(email, isEmail).Ok?
      ensures r.Err? ==> r == Err(NormalizeEmail(email, isEmail).error)
      ensures r.Ok? ==> fresh(r.value)
      ensures r.Ok? ==> r.value.View() == Initial(StrToLower(email), source, clientIp, hash, now)
      ensures r.Ok? ==> WellFormed(r.value.View(), isEmail)
    {
      var normalized := NormalizeEmail(email, isEmail);
      if normalized.Err? {
        return Err(normalized.error);
      }
      var n := new Newsletter(normalized.value, source, clientIp, hash, now);
      return Ok(n);
    }

    method Authorize(now: Time, clientIp: string)
      modifies this
      ensures authorizedByUser && authorizedDate == Some(now) && !canceled && cancelDate == None
      ensures ip == if old(ip).None? then Some(clientIp) else old(ip)
      ensures email == old(email) && hash == old(hash) && source == old(source)
      ensures insertedDate == old(insertedDate) && cancelMessage == old(cancelMessage)
      ensures View() == old(View()).Authorize(now, clientIp)
    {
      authorizedByUser := true;
      authorizedDate := Some(now);
      canceled := false;
      cancelDate := None;
      if ip.None? {
        ip := Some(clientIp);
      }
    }

    method UnAuthorize()
      modifies this`authorizedByUser
      ensures !authorizedByUser
      ensures View() == old(View()).(authorizedByUser := false)
    {
      authorizedByUser := false;
    }

    predicate IsActive()
      reads this
    {
      View().IsActive()
    }

    method Cancel(message: Option<string>, now: Time)
      modifies this
      ensures canceled && cancelMessage == message && cancelDate == Some(now)
      ensures authorizedByUser == old(authorizedByUser) && authorizedDate == old(authorizedDate)
      ensures email == old(email) && hash == old(hash) && ip == old(ip) && source == old(source)
      ensures insertedDate == old(insertedDate)
      ensures View() == old(View()).Cancel(message, now)
    {
      canceled := true;
      cancelMessage := message;
      cancelDate := Some(now);
    }

    /** setIp: stores the value as given. */
    method SetIp(newIp: Option<string>)
      modifies this`ip
      ensures View() == old(View()).(ip := newIp)
    {
      ip := newIp;
    }

    /** setSource: stores the value as given; unlike the constructor it does not truncate. */
    method SetSource(newSource: Option<string>)
      modifies this`source
      ensures View() == old(View()).(source := newSource)
    {
      source := newSource;
    }

    method SetCancelMessage(message: Option<string>)
      modifies this`cancelMessage
      ensures View() == old(View()).(cancelMessage := message)
    {
      cancelMessage := message;
    }

    method SetCancelDate(date: Option<Time>)
      modifies this`cancelDate
      ensures View() == old(View()).(cancelDate := date)
    {
      cancelDate := date;
    }
  }
}
