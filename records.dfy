/**
 * The contributor record and the JavaScript truthiness rules the pipeline
 * applies to its optional string fields.
 */
module Records {
  import opened Wrappers

  /**
   * A contributor record (`GitContributor` extended with `username` and
   * `email`). Only `name` is required; every other property may be missing.
   */
  datatype Contributor = Contributor(
    name: string,
    email: Option<string>,
    url: Option<string>,
    username: Option<string>,
    avatar: Option<string>,
    commits: Option<int>)

  /** JavaScript truthiness of an optional string: present and non-empty. */
  predicate Truthy(o: Option<string>) {
    o.Some? && o.value != ""
  }

  /** `a || b` on optional strings. */
  function Or(a: Option<string>, b: Option<string>): Option<string> {
    if Truthy(a) then a else b
  }

  /** One property of `{ ...under, ...over }`: the later spread wins when it has the property. */
  function Overlay<T>(over: Option<T>, under: Option<T>): Option<T> {
    if over.Some? then over else under
  }

  /** The first truthy entry of a list of optional strings, None when there is none. */
  function FirstTruthy(s: seq<Option<string>>): (r: Option<string>)
    ensures r.Some? ==> r.value != "" && r in s
    ensures r.None? <==> forall i :: 0 <= i < |s| ==> !Truthy(s[i])
  {
    if s == [] then None
    else if Truthy(s[0]) then s[0]
    else FirstTruthy(s[1..])
  }

  /** FirstTruthy picks the entry at the first truthy position. */
  lemma {:induction false} FirstTruthyAt(s: seq<Option<string>>, i: nat)
    requires i < |s| && Truthy(s[i])
    requires forall j :: 0 <= j < i ==> !Truthy(s[j])
    ensures FirstTruthy(s) == s[i]
  {
    if i > 0 {
      FirstTruthyAt(s[1..], i - 1);
    }
  }

  /** Appending an entry changes the first truthy entry only when there was none. */
  lemma {:induction false} FirstTruthyAppend(s: seq<Option<string>>, x: Option<string>)
    ensures FirstTruthy(s + [x]) == if FirstTruthy(s).Some? then FirstTruthy(s) else if Truthy(x) then x else None
  {
    if s != [] {
      assert (s + [x])[1..] == s[1..] + [x];
      FirstTruthyAppend(s[1..], x);
    }
  }

  /** The first present entry of a list of optional values (empty strings included). */
  function FirstPresent<T>(s: seq<Option<T>>): (r: Option<T>)
    ensures r.Some? ==> r in s
    ensures r.None? <==> forall i :: 0 <= i < |s| ==> s[i].None?
  {
    if s == [] then None
    else if s[0].Some? then s[0]
    else FirstPresent(s[1..])
  }

  /** Appending an entry changes the first present entry only when there was none. */
  lemma {:induction false} FirstPresentAppend<T>(s: seq<Option<T>>, x: Option<T>)
    ensures FirstPresent(s + [x]) == Overlay(FirstPresent(s), x)
  {
    if s != [] {
      assert (s + [x])[1..] == s[1..] + [x];
      FirstPresentAppend(s[1..], x);
    }
  }
}
