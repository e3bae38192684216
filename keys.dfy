/** The grouping key of a contributor record (`resolveKey`). */
module Keys {
  import opened Wrappers
  import opened Text
  import opened Records

  const ANONYMOUS_PREFIX := "anonymous-"

  /** The synthetic key of a record with no identifying signal at position `index`. */
  function AnonymousKey(index: nat): string {
    ANONYMOUS_PREFIX + NatToString(index)
  }

  /**
   * `resolveKey`: the lower-cased resolved username, else the lower-cased
   * email, else the lower-cased name, else the positional anonymous key.
   * A key is never empty and holds no upper-case ASCII letter.
   */
  function ResolveKey(username: Option<string>, email: Option<string>, name: string, index: nat): (k: string)
    ensures k != ""
    ensures forall i :: 0 <= i < |k| ==> !IsUpperAscii(k[i])
  {
    if Truthy(username) then ToLower(username.value)
    else if Truthy(email) then ToLower(email.value)
    else if name != "" then ToLower(name)
    else
      var k := AnonymousKey(index);
      assert forall i :: 0 <= i < |k| ==> !IsUpperAscii(k[i]) by {
        forall i | 0 <= i < |k| ensures !IsUpperAscii(k[i]) {
          if i >= |ANONYMOUS_PREFIX| {
            assert k[i] == NatToString(index)[i - |ANONYMOUS_PREFIX|];
          }
        }
      }
      k
  }

  /**
   * Usernames equal up to ASCII case give the same key, whatever the emails,
   * names and positions of the two records.
   */
  lemma UsernameKeyIgnoresCase(u1: string, e1: Option<string>, n1: string, i1: nat,
                               u2: string, e2: Option<string>, n2: string, i2: nat)
    requires u1 != "" && u2 != "" && EqualsIgnoreCase(u1, u2)
    ensures ResolveKey(Some(u1), e1, n1, i1) == ResolveKey(Some(u2), e2, n2, i2)
  {
  }

  /** A record with any signal gets a key that does not depend on its position. */
  lemma SignalKeyIgnoresPosition(username: Option<string>, email: Option<string>, name: string, i: nat, j: nat)
    requires Truthy(username) || Truthy(email) || name != ""
    ensures ResolveKey(username, email, name, i) == ResolveKey(username, email, name, j)
  {
  }

  /** Two records without any signal, at different positions, never share a key. */
  lemma AnonymousKeysDistinct(i: nat, j: nat)
    requires i != j
    ensures ResolveKey(None, None, "", i) != ResolveKey(None, None, "", j)
  {
    var ki, kj := AnonymousKey(i), AnonymousKey(j);
    if ki == kj {
      assert ki[|ANONYMOUS_PREFIX|..] == NatToString(i);
      assert kj[|ANONYMOUS_PREFIX|..] == NatToString(j);
      NatToStringInjective(i, j);
    }
  }

  /**
   * The anonymous key shares the name key space: a record named
   * `anonymous-<n>` (in any case) groups with the signal-less record at
   * position `n`.
   */
  lemma AnonymousKeyMeetsName(name: string, n: nat, index: nat)
    requires name != "" && ToLower(name) == AnonymousKey(n)
    ensures ResolveKey(None, None, name, index) == ResolveKey(None, None, "", n)
  {
  }
}
