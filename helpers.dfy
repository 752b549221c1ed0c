/**
 * The static helpers of src/Helpers.php: the post-processing of e-mail extraction, the client-IP
 * decision with its per-request memo, and the API path computation.
 * The address regex (preg_match_all), Validators::isEmail and filter_var's IPv4 test are parameters.
 */
module Helpers {
  import opened Wrappers
  import opened Builtins

  // ---------------------------------------------------------------------------------------------
  // getEmailAddresses

  /** The characters trim($email, '\'"') strips. */
  const QuoteChars: set<char> := {'\'', '"'}

  /** Neither the first nor the last character is a quote. */
  predicate Unquoted(s: string) {
    s != [] ==> s[0] !in QuoteChars && s[|s| - 1] !in QuoteChars
  }

  function TrimQuotes(s: string): (r: string)
    ensures Unquoted(r)
  {
    Trim(s, QuoteChars)
  }

  /**
   * The loop body applied to the distinct raw matches in order: strip quotes, keep what the
   * validator accepts.
   */
  function ValidCandidates(unique: seq<string>, isEmail: string -> bool): (r: seq<string>)
    ensures |r| <= |unique|
    ensures forall k :: 0 <= k < |r| ==> isEmail(r[k])
    ensures forall k :: 0 <= k < |r| ==> Unquoted(r[k])
    decreases |unique|
  {
    if unique == [] then []
    else
      var rest := ValidCandidates(unique[..|unique| - 1], isEmail);
      var e := TrimQuotes(unique[|unique| - 1]);
      if isEmail(e) then rest + [e] else rest
  }

  /**
   * Every address ValidCandidates returns comes from a distinct match, and the matches they come
   * from are in increasing position: o[k] is the position of the match behind the k-th address.
   */
  lemma {:induction false} CandidateOrigins(unique: seq<string>, isEmail: string -> bool) returns (o: seq<nat>)
    ensures |o| == |ValidCandidates(unique, isEmail)|
    ensures forall k :: 0 <= k < |o| ==> o[k] < |unique|
    ensures forall k :: 0 <= k < |o| ==> ValidCandidates(unique, isEmail)[k] == TrimQuotes(unique[o[k]])
    ensures forall k, l :: 0 <= k < l < |o| ==> o[k] < o[l]
    decreases |unique|
  {
    if unique == [] {
      return [];
    }
    var init := unique[..|unique| - 1];
    var rest := CandidateOrigins(init, isEmail);
    var r := ValidCandidates(unique, isEmail);
    var restR := ValidCandidates(init, isEmail);
    var e := TrimQuotes(unique[|unique| - 1]);
    if isEmail(e) {
      assert r == restR + [e];
      o := rest + [|unique| - 1];
      forall k | 0 <= k < |o| ensures r[k] == TrimQuotes(unique[o[k]]) {
        if k < |rest| {
          assert r[k] == restR[k] && o[k] == rest[k];
          assert init[rest[k]] == unique[rest[k]];
        }
      }
    } else {
      assert r == restR;
      o := rest;
      forall k | 0 <= k < |o| ensures r[k] == TrimQuotes(unique[o[k]]) {
        assert init[rest[k]] == unique[rest[k]];
      }
    }
  }

  /** getEmailAddresses as a value: [] for blank input, else the pipeline over the distinct raw matches. */
  function ExtractEmails(haystack: string, matcher: string -> seq<string>, isEmail: string -> bool): seq<string> {
    if TrimSpace(haystack) == [] then [] else ValidCandidates(ArrayUnique(matcher(haystack)), isEmail)
  }

  /**
   * getEmailAddresses: returns [] for empty or whitespace-only text; otherwise walks the distinct
   * regex matches in first-seen order and keeps each quote-trimmed match the validator accepts.
   */
  method GetEmailAddresses(haystack: string, matcher: string -> seq<string>, isEmail: string -> bool)
    returns (r: seq<string>)
    ensures r == ExtractEmails(haystack, matcher, isEmail)
    ensures (forall i :: 0 <= i < |haystack| ==> haystack[i] in Whitespace) ==> r == []
    ensures |r| <= |matcher(haystack)|
    ensures forall k :: 0 <= k < |r| ==> isEmail(r[k])
    ensures forall k :: 0 <= k < |r| ==> Unquoted(r[k])
  {
    TrimEmptyIff(haystack, Whitespace);
    if TrimSpace(haystack) == [] {
      return [];
    }
    var matches := ArrayUnique(matcher(haystack));
    r := [];
    for i := 0 to |matches|
      invariant r == ValidCandidates(matches[..i], isEmail)
    {
      assert matches[..i + 1][..i] == matches[..i];
      var email := TrimQuotes(matches[i]);
      if isEmail(email) {
        r := r + [email];
      }
    }
    assert matches[..|matches|] == matches;
  }

  /**
   * The returned addresses appear in the order in which their raw matches were first seen:
   * each comes from a distinct raw match, and earlier outputs come from earlier first occurrences.
   */
  lemma ExtractedFollowFirstSeenOrder(haystack: string, matcher: string -> seq<string>, isEmail: string -> bool)
    returns (o: seq<nat>)
    requires TrimSpace(haystack) != []
    ensures var raw := matcher(haystack);
      var unique := ArrayUnique(raw);
      var r := ExtractEmails(haystack, matcher, isEmail);
      && |o| == |r|
      && (forall k :: 0 <= k < |r| ==> o[k] < |unique| && r[k] == TrimQuotes(unique[o[k]]))
      && (forall k, l :: 0 <= k < l < |r| ==> FirstIndex(raw, unique[o[k]]) < FirstIndex(raw, unique[o[l]]))
  {
    var raw := matcher(haystack);
    var unique := ArrayUnique(raw);
    ArrayUniqueKeepsFirstSeenOrder(raw);
    assert forall i, j :: 0 <= i < j < |unique| ==> FirstIndex(raw, unique[i]) < FirstIndex(raw, unique[j]);
    o := CandidateOrigins(unique, isEmail);
    forall k, l | 0 <= k < l < |o| ensures FirstIndex(raw, unique[o[k]]) < FirstIndex(raw, unique[o[l]]) {
      var i, j := o[k], o[l];
      assert 0 <= i < j < |unique|;
      assert FirstIndex(raw, unique[i]) < FirstIndex(raw, unique[j]);
    }
  }

  /**
   * De-duplication happens before quote trimming, so the result can still hold a repeated
   * address: the raw matches "a@b.cz" and "'a@b.cz'" both survive and both trim to "a@b.cz".
   */
  lemma DuplicateAfterQuoteTrim(isEmail: string -> bool)
    requires isEmail("a@b.cz")
    ensures ValidCandidates(ArrayUnique(["a@b.cz", "'a@b.cz'"]), isEmail) == ["a@b.cz", "a@b.cz"]
  {
    var plain := "a@b.cz";
    var quoted := "'a@b.cz'";
    var unique := [plain, quoted];
    ArrayUniqueOfDistinct(unique);
    assert TrimQuotes(plain) == plain by {
      assert TrimLeft(plain, QuoteChars) == plain;
      assert TrimRight(plain, QuoteChars) == plain;
    }
    assert TrimQuotes(quoted) == plain by {
      var half := "a@b.cz'";
      assert quoted[1..] == half;
      assert TrimLeft(half, QuoteChars) == half;
      assert TrimLeft(quoted, QuoteChars) == half;
      assert half[..6] == plain;
      assert TrimRight(plain, QuoteChars) == plain;
      assert TrimRight(half, QuoteChars) == plain;
    }
    assert unique[..1] == [plain];
    assert [plain][..0] == [];
    assert ValidCandidates([plain], isEmail) == [plain];
  }

  // ---------------------------------------------------------------------------------------------
  // userIp

  const CloudflareHeader := "HTTP_CF_CONNECTING_IP"
  const RemoteAddr := "REMOTE_ADDR"
  const RealIpHeader := "HTTP_X_REAL_IP"
  const ForwardedForHeader := "HTTP_X_FORWARDED_FOR"
  const Loopback := "127.0.0.1"

  /** Values that name the local machine and are replaced by the IPv4 loopback. */
  predicate IsLocalAlias(ip: string) {
    ip == "::1" || ip == "0.0.0.0" || ip == "localhost"
  }

  /** The raw address chosen from the server variables (a variable set to null counts as absent). */
  function CandidateIp(server: map<string, string>): string {
    if CloudflareHeader in server then server[CloudflareHeader]
    else if RemoteAddr in server then
      if server[RemoteAddr] != Loopback then server[RemoteAddr]
      else if RealIpHeader in server then server[RealIpHeader]
      else if ForwardedForHeader in server then server[ForwardedForHeader]
      else Loopback
    else Loopback
  }

  /** Local aliases and anything that is not an IPv4 address become the loopback address. */
  function NormalizeIp(ip: string, isIPv4: string -> bool): (r: string)
    ensures r == Loopback || isIPv4(r)
    ensures !IsLocalAlias(r) || r == Loopback
    ensures IsLocalAlias(ip) || !isIPv4(ip) ==> r == Loopback
    ensures !IsLocalAlias(ip) && isIPv4(ip) ==> r == ip
  {
    var ip' := if IsLocalAlias(ip) then Loopback else ip;
    if isIPv4(ip') then ip' else Loopback
  }

  /** The address userIp() computes on its first call. */
  function ResolveIp(server: map<string, string>, isIPv4: string -> bool): string {
    NormalizeIp(CandidateIp(server), isIPv4)
  }

  /**
   * Source priority: the Cloudflare header first, then REMOTE_ADDR, where the loopback address
   * is overridden by X-Real-IP and failing that by X-Forwarded-For; the loopback with none present.
   */
  lemma UserIpPriority(server: map<string, string>, isIPv4: string -> bool)
    ensures CloudflareHeader in server ==> ResolveIp(server, isIPv4) == NormalizeIp(server[CloudflareHeader], isIPv4)
    ensures CloudflareHeader !in server && RemoteAddr in server && server[RemoteAddr] != Loopback ==>
      ResolveIp(server, isIPv4) == NormalizeIp(server[RemoteAddr], isIPv4)
    ensures (CloudflareHeader !in server && RemoteAddr in server && server[RemoteAddr] == Loopback
             && RealIpHeader in server) ==>
      ResolveIp(server, isIPv4) == NormalizeIp(server[RealIpHeader], isIPv4)
    ensures (CloudflareHeader !in server && RemoteAddr in server && server[RemoteAddr] == Loopback
             && RealIpHeader !in server && ForwardedForHeader in server) ==>
      ResolveIp(server, isIPv4) == NormalizeIp(server[ForwardedForHeader], isIPv4)
    ensures CloudflareHeader !in server && RemoteAddr !in server ==> ResolveIp(server, isIPv4) == Loopback
    ensures ResolveIp(server, isIPv4) == Loopback || isIPv4(ResolveIp(server, isIPv4))
  {
  }

  /** The function-static `$ip` of userIp(): empty until the first call of a request. */
  class UserIpMemo {
    var ip: Option<string>

    constructor ()
      ensures ip == None
    {
      ip := None;
    }

    /** userIp(): computed once from the server variables, then returned unchanged. */
    method UserIp(server: map<string, string>, isIPv4: string -> bool) returns (r: string)
      modifies this
      ensures old(ip).Some? ==> r == old(ip).value && ip == old(ip)
      ensures old(ip).None? ==> r == ResolveIp(server, isIPv4) && ip == Some(r)
    {
      if ip.None? {
        var candidate: string;
        if CloudflareHeader in server {
          candidate := server[CloudflareHeader];
        } else if RemoteAddr in server {
          candidate := server[RemoteAddr];
          if candidate == Loopback {
            if RealIpHeader in server {
              candidate := server[RealIpHeader];
            } else if ForwardedForHeader in server {
              candidate := server[ForwardedForHeader];
            }
          }
        } else {
          candidate := Loopback;
        }
        if IsLocalAlias(candidate) {
          candidate := Loopback;
        }
        if !isIPv4(candidate) {
          candidate := Loopback;
        }
        ip := Some(candidate);
      }
      r := ip.value;
    }
  }

  // ---------------------------------------------------------------------------------------------
  // processPath

  const Slash: set<char> := {'/'}

  /**
   * processPath: the current URL with every occurrence of the base URL (trailing slashes removed)
   * deleted, then trimmed of slashes on both ends.
   */
  function ProcessPath(baseUrl: string, currentUrl: string): (r: string)
    ensures r != [] ==> r[0] != '/' && r[|r| - 1] != '/'
    ensures |r| <= |currentUrl|
  {
    Trim(RemoveAll(currentUrl, TrimRight(baseUrl, Slash)), Slash)
  }

  /** For a page below the base URL, processPath returns the path under it. */
  lemma {:induction false} ProcessPathBelowBase(baseUrl: string, path: string)
    requires baseUrl != [] && baseUrl[|baseUrl| - 1] != '/'
    requires path != [] ==> path[0] != '/' && path[|path| - 1] != '/'
    requires forall i: nat :: i < |"/" + path| ==> !OccursAt("/" + path, baseUrl, i)
    ensures ProcessPath(baseUrl, baseUrl + "/" + path) == path
  {
    var tail := "/" + path;
    assert TrimRight(baseUrl, Slash) == baseUrl;
    assert baseUrl + "/" + path == baseUrl + tail;
    RemoveAllLeading(baseUrl, tail);
    RemoveAllWithoutOccurrence(tail, baseUrl);
    assert tail[1..] == path;
    assert TrimLeft(tail, Slash) == path;
    assert TrimRight(path, Slash) == path;
  }
}
