/**
 * Username extraction and resolution: a GitHub handle read from an explicit
 * `username`, from a profile or app URL, or from a no-reply commit email.
 */
module Usernames {
  import opened Wrappers
  import opened Text
  import opened Records

  /** The two components of a parsed URL the extraction looks at. */
  datatype UrlParts = UrlParts(hostname: string, pathname: string)

  /**
   * The WHATWG URL parser (`new URL(url)`), as a partial function: None is a
   * string it rejects (the constructor throws and the `catch` returns undefined).
   */
  type UrlParser = string -> Option<UrlParts>

  const PROFILE_HOST := "github.com"
  const APPS_SEGMENT := "apps"
  const BOT_MARKER := "[bot]"
  const NO_REPLY_SUFFIX := "@users.noreply.github.com"

  /** The username a parsed URL names, as `extractGitHubUsernameFromUrl` reads it. */
  function UsernameFromUrlParts(parsed: Option<UrlParts>): (r: Option<string>)
    ensures r.Some? ==> r.value != ""
    ensures r.Some? <==>
      parsed.Some? && EndsWith(parsed.value.hostname, PROFILE_HOST) && |PathSegments(parsed.value.pathname)| > 0
    ensures r.Some? ==>
      var segments := PathSegments(parsed.value.pathname);
      if |segments| == 1 then r.value == segments[0]
      else if segments[0] == APPS_SEGMENT then r.value == segments[1] + BOT_MARKER
      else r.value == segments[|segments| - 1]
  {
    if parsed.None? then None
    else if !EndsWith(parsed.value.hostname, PROFILE_HOST) then None
    else
      var segments := PathSegments(parsed.value.pathname);
      if |segments| == 0 || segments[0] == "" then None
      else if |segments| == 1 then Some(segments[0])
      else if segments[0] == APPS_SEGMENT && segments[1] != "" then Some(segments[1] + BOT_MARKER)
      else Some(segments[|segments| - 1])
  }

  /** `extractGitHubUsernameFromUrl(url)`, given the URL parser. */
  function UsernameFromUrl(parse: UrlParser, url: string): (r: Option<string>)
    ensures r.Some? ==> r.value != ""
    ensures parse(url).None? ==> r.None?
  {
    UsernameFromUrlParts(parse(url))
  }

  /** `https://<host>/<name>` names `<name>` when the host ends in github.com. */
  lemma ProfileUrl(parse: UrlParser, url: string, host: string, name: string)
    requires parse(url) == Some(UrlParts(host, AbsolutePath([name])))
    requires EndsWith(host, PROFILE_HOST)
    requires name != "" && '/' !in name
    ensures UsernameFromUrl(parse, url) == Some(name)
  {
    PathSegmentsOfAbsolutePath([name]);
  }

  /** `https://<host>/apps/<app>` names the bot account `<app>[bot]`. */
  lemma AppUrl(parse: UrlParser, url: string, host: string, app: string)
    requires parse(url) == Some(UrlParts(host, AbsolutePath([APPS_SEGMENT, app])))
    requires EndsWith(host, PROFILE_HOST)
    requires app != "" && '/' !in app
    ensures UsernameFromUrl(parse, url) == Some(app + BOT_MARKER)
  {
    PathSegmentsOfAbsolutePath([APPS_SEGMENT, app]);
  }

  /** A trailing slash changes nothing: `https://github.com/<name>/` still yields `<name>`. */
  lemma ProfileUrlTrailingSlash(parse: UrlParser, url: string, host: string, name: string)
    requires parse(url) == Some(UrlParts(host, AbsolutePath([name]) + "/"))
    requires EndsWith(host, PROFILE_HOST)
    requires name != "" && '/' !in name
    ensures UsernameFromUrl(parse, url) == Some(name)
  {
    PathSegmentsTrailingSlash([name]);
  }

  /** With more segments, or a first segment other than `apps`, the last segment is the name. */
  lemma NestedUrl(parse: UrlParser, url: string, host: string, segments: seq<string>)
    requires parse(url) == Some(UrlParts(host, AbsolutePath(segments)))
    requires EndsWith(host, PROFILE_HOST)
    requires forall i :: 0 <= i < |segments| ==> segments[i] != "" && '/' !in segments[i]
    requires |segments| >= 2 && segments[0] != APPS_SEGMENT
    ensures UsernameFromUrl(parse, url) == Some(segments[|segments| - 1])
  {
    PathSegmentsOfAbsolutePath(segments);
  }

  /** A host that does not end in github.com yields nothing, whatever the path. */
  lemma ForeignHostUrl(parse: UrlParser, url: string, host: string, path: string)
    requires parse(url) == Some(UrlParts(host, path))
    requires !EndsWith(host, PROFILE_HOST)
    ensures UsernameFromUrl(parse, url) == None
  {
  }

  /**
   * The host test is a plain suffix test: any host ending in the characters
   * "github.com" is accepted, `notgithub.com` included.
   */
  lemma SuffixHostAccepted(parse: UrlParser, url: string, name: string)
    requires parse(url) == Some(UrlParts("notgithub.com", AbsolutePath([name])))
    requires name != "" && '/' !in name
    ensures UsernameFromUrl(parse, url) == Some(name)
  {
    assert "notgithub.com" == "not" + PROFILE_HOST;
    EndsWithIffConcat("notgithub.com", PROFILE_HOST);
    ProfileUrl(parse, url, "notgithub.com", name);
  }

  /** The characters `.` in the regex refuses: the ECMAScript line terminators. */
  predicate IsLineTerminator(c: char) {
    c == '\n' || c == '\r' || c as int == 0x2028 || c as int == 0x2029
  }

  /** The text before the no-reply suffix. */
  function LocalPart(email: string): string
    requires |email| >= |NO_REPLY_SUFFIX|
  {
    email[..|email| - |NO_REPLY_SUFFIX|]
  }

  /**
   * `/^(.+?)@users\.noreply\.github\.com$/i` matches: a non-empty local part
   * without line terminators, then the suffix in any ASCII letter case, then
   * the end of the string. The suffix is written in lower case
   * (NoReplySuffixIsLower), so comparing the lowered tail with it is the
   * case-insensitive comparison.
   */
  predicate IsNoReplyEmail(email: string) {
    && |email| > |NO_REPLY_SUFFIX|
    && ToLower(email[|email| - |NO_REPLY_SUFFIX|..]) == NO_REPLY_SUFFIX
    && forall i :: 0 <= i < |LocalPart(email)| ==> !IsLineTerminator(LocalPart(email)[i])
  }

  /**
   * The handle inside a local part: the text after its first `+`, or the
   * whole local part when it has none. The handle may be empty.
   */
  function HandleOf(local: string): (h: string)
    ensures |h| <= |local| && h == local[|local| - |h|..]
    ensures '+' in local <==> |h| < |local|
    ensures |h| < |local| ==>
      local[|local| - |h| - 1] == '+' && '+' !in local[..|local| - |h| - 1]
  {
    match IndexOf(local, '+')
    case Some(plus) => local[plus + 1..]
    case None => local
  }

  /**
   * `extractGitHubUsernameFromEmail`: the handle of the local part of a
   * no-reply address, and nothing for any other address.
   */
  function UsernameFromEmail(email: string): (r: Option<string>)
    ensures r.Some? <==> IsNoReplyEmail(email)
    ensures r.Some? ==> |r.value| <= |email| - |NO_REPLY_SUFFIX|
  {
    if !IsNoReplyEmail(email) then None
    else Some(HandleOf(LocalPart(email)))
  }

  lemma NoReplySuffixIsLower()
    ensures ToLower(NO_REPLY_SUFFIX) == NO_REPLY_SUFFIX
  {
    ToLowerOfLower(NO_REPLY_SUFFIX);
  }

  /** Conversely, every matching address is such a local part followed by such a suffix. */
  lemma NoReplySplit(email: string)
    requires IsNoReplyEmail(email)
    ensures var local, suffix := LocalPart(email), email[|email| - |NO_REPLY_SUFFIX|..];
      && email == local + suffix
      && local != ""
      && (forall i :: 0 <= i < |local| ==> !IsLineTerminator(local[i]))
      && |suffix| == |NO_REPLY_SUFFIX| && ToLower(suffix) == NO_REPLY_SUFFIX
  {
  }

  /**
   * Every matching address yields the handle of its local part: the address
   * is a local part followed by the suffix in any ASCII letter case.
   */
  lemma EmailOfLocal(local: string, suffix: string)
    requires local != ""
    requires forall i :: 0 <= i < |local| ==> !IsLineTerminator(local[i])
    requires |suffix| == |NO_REPLY_SUFFIX| && ToLower(suffix) == NO_REPLY_SUFFIX
    ensures IsNoReplyEmail(local + suffix)
    ensures UsernameFromEmail(local + suffix) == Some(HandleOf(local))
  {
    MatchOf(local, suffix);
  }

  /** EmailOfLocal for the suffix as written in the pattern. */
  lemma EmailOfLowerSuffix(local: string)
    requires local != ""
    requires forall i :: 0 <= i < |local| ==> !IsLineTerminator(local[i])
    ensures UsernameFromEmail(local + NO_REPLY_SUFFIX) == Some(HandleOf(local))
  {
    NoReplySuffixIsLower();
    EmailOfLocal(local, NO_REPLY_SUFFIX);
  }

  /** The matching half of EmailOfLocal. */
  lemma MatchOf(local: string, suffix: string)
    requires local != ""
    requires forall i :: 0 <= i < |local| ==> !IsLineTerminator(local[i])
    requires |suffix| == |NO_REPLY_SUFFIX| && ToLower(suffix) == NO_REPLY_SUFFIX
    ensures IsNoReplyEmail(local + suffix) && LocalPart(local + suffix) == local
  {
    var email := local + suffix;
    ConcatSplit(local, suffix);
    assert LocalPart(email) == local;
  }

  /** A concatenation splits back into its two parts at the length of the second. */
  lemma ConcatSplit(front: string, back: string)
    ensures var s := front + back;
      s[..|s| - |back|] == front && s[|s| - |back|..] == back
  {
  }

  /** `<id>+<handle>@users.noreply.github.com` yields `<handle>` when `<id>` has no `+`. */
  lemma EmailWithId(id: string, handle: string)
    requires '+' !in id
    requires forall i :: 0 <= i < |id| ==> !IsLineTerminator(id[i])
    requires forall i :: 0 <= i < |handle| ==> !IsLineTerminator(handle[i])
    ensures UsernameFromEmail(id + "+" + handle + NO_REPLY_SUFFIX) == Some(handle)
  {
    var local := id + "+" + handle;
    assert forall i :: 0 <= i < |local| ==> !IsLineTerminator(local[i]) by {
      forall i | 0 <= i < |local| ensures !IsLineTerminator(local[i]) {
        if i > |id| { assert local[i] == handle[i - |id| - 1]; }
      }
    }
    EmailOfLowerSuffix(local);
    HandleAfterPlus(id, handle);
  }

  /** The handle of `<id>+<handle>` is `<handle>` when `<id>` has no `+`. */
  lemma HandleAfterPlus(id: string, handle: string)
    requires '+' !in id
    ensures HandleOf(id + "+" + handle) == handle
  {
    var local := id + "+" + handle;
    IndexOfFirst(id, '+', handle);
    assert local[|id| + 1..] == handle;
  }

  /** `<handle>@users.noreply.github.com` yields `<handle>` when it has no `+`. */
  lemma EmailWithoutId(handle: string)
    requires handle != "" && '+' !in handle
    requires forall i :: 0 <= i < |handle| ==> !IsLineTerminator(handle[i])
    ensures UsernameFromEmail(handle + NO_REPLY_SUFFIX) == Some(handle)
  {
    EmailOfLowerSuffix(handle);
    assert HandleOf(handle) == handle;
  }

  /** A matching email, lowered, ends in the no-reply suffix. */
  lemma NoReplyEndsWithSuffix(email: string)
    ensures IsNoReplyEmail(email) ==> EndsWith(ToLower(email), NO_REPLY_SUFFIX)
  {
    if |email| >= |NO_REPLY_SUFFIX| {
      ToLowerSuffix(email, |email| - |NO_REPLY_SUFFIX|);
    }
  }

  /** An email that, lowered, does not end in the no-reply suffix yields nothing. */
  lemma OtherEmail(email: string)
    requires !EndsWith(ToLower(email), NO_REPLY_SUFFIX)
    ensures UsernameFromEmail(email) == None
  {
    NoReplyEndsWithSuffix(email);
  }

  /** The three candidates, in the order `resolveGitHubUsername` tries them. */
  function Candidates(parse: UrlParser, c: Contributor): (r: seq<Option<string>>)
    ensures |r| == 3 && r[0] == c.username
    ensures r[1].Some? ==> Truthy(c.url)
    ensures r[2].Some? ==> Truthy(c.email) && IsNoReplyEmail(c.email.value)
  {
    [ c.username,
      if Truthy(c.url) then UsernameFromUrl(parse, c.url.value) else None,
      if Truthy(c.email) then UsernameFromEmail(c.email.value) else None ]
  }

  /**
   * `resolveGitHubUsername`: the explicit username if non-empty, else a
   * non-empty handle from the URL, else a non-empty handle from the email.
   */
  function ResolveUsername(parse: UrlParser, c: Contributor): (r: Option<string>)
    ensures r == FirstTruthy(Candidates(parse, c))
    ensures r.Some? ==> r.value != ""
  {
    var candidates := Candidates(parse, c);
    assert candidates[1..][1..] == [candidates[2]];
    if Truthy(c.username) then c.username
    else if Truthy(c.url) && Truthy(UsernameFromUrl(parse, c.url.value)) then UsernameFromUrl(parse, c.url.value)
    else if Truthy(c.email) && Truthy(UsernameFromEmail(c.email.value)) then UsernameFromEmail(c.email.value)
    else None
  }

  /** A no-reply address with an id and an empty handle (`123+@...`) matches with an empty handle. */
  lemma EmptyHandleEmail(id: string)
    requires '+' !in id
    requires forall i :: 0 <= i < |id| ==> !IsLineTerminator(id[i])
    ensures UsernameFromEmail(id + "+" + NO_REPLY_SUFFIX) == Some("")
  {
    EmailWithId(id, "");
    assert id + "+" + "" == id + "+";
  }

  /**
   * Each step falls through on an empty or missing result: a record whose
   * username is empty or missing, whose URL yields nothing and whose email
   * yields nothing or an empty handle (EmptyHandleEmail) has no username.
   */
  lemma NoTruthyCandidate(parse: UrlParser, c: Contributor)
    requires !Truthy(c.username)
    requires Truthy(c.url) ==> !Truthy(UsernameFromUrl(parse, c.url.value))
    requires Truthy(c.email) ==> !Truthy(UsernameFromEmail(c.email.value))
    ensures ResolveUsername(parse, c) == None
  {
    var candidates := Candidates(parse, c);
    assert !Truthy(candidates[0]) && !Truthy(candidates[1]) && !Truthy(candidates[2]);
  }
}
