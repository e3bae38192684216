/**
 * The merge fold of `normalizeContributors`: one pass over the input into an
 * insertion-ordered map from key to merged record.
 *
 * `Fold` is the specification of the pass (the map after each prefix of the
 * input), `NormalizeContributors` the imperative pass proved against it, and
 * `Expected` an independent description of the record a key ends up with,
 * stated over the input records that share the key.
 */
module Merge {
  import opened Wrappers
  import opened Text
  import opened Records
  import opened Usernames
  import opened Keys

  /**
   * How a record's username is resolved. The fold and its lemmas hold for any
   * resolver; `normalizeContributors` uses `resolveGitHubUsername`.
   */
  type Resolver = Contributor -> Option<string>

  /** `resolveGitHubUsername` with the URL parser fixed. */
  function GitHubResolver(parse: UrlParser): Resolver {
    c => ResolveUsername(parse, c)
  }

  /** `{ ...contributor }` with `name` replaced by the resolved username, if any. */
  function Normalize(c: Contributor, username: Option<string>): (r: Contributor)
    ensures Truthy(username) ==> r.name == username.value
    ensures !Truthy(username) ==> r == c
    ensures r.(name := c.name) == c
  {
    if Truthy(username) then c.(name := username.value) else c
  }

  /**
   * The record stored for a key that was already present: `{ ...normalized,
   * ...existing }`, then the name forced to the username, the url and avatar
   * filled when empty, and the commit counts added.
   */
  function MergeRecords(existing: Contributor, normalized: Contributor, username: Option<string>): (m: Contributor)
    ensures Truthy(username) ==> m.name == username.value
  {
    var spread := Contributor(
      existing.name,
      Overlay(existing.email, normalized.email),
      Overlay(existing.url, normalized.url),
      Overlay(existing.username, normalized.username),
      Overlay(existing.avatar, normalized.avatar),
      Overlay(existing.commits, normalized.commits));
    var name := if Truthy(username) && spread.name != username.value then username.value else spread.name;
    var url := if !Truthy(spread.url) then Or(normalized.url, existing.url) else spread.url;
    var avatar := if !Truthy(spread.avatar) then Or(normalized.avatar, existing.avatar) else spread.avatar;
    var commits :=
      if existing.commits.Some? || normalized.commits.Some? then Some(existing.commits.GetOr(0) + normalized.commits.GetOr(0))
      else spread.commits;
    Contributor(name, spread.email, url, spread.username, avatar, commits)
  }

  /**
   * Precedence in a merge: the stored record's properties win over the
   * incoming one's, the name becomes the incoming record's username when it
   * has one, url and avatar are taken from the incoming record only when the
   * stored one is missing or empty, and the commit counts add up.
   */
  lemma MergePrecedence(existing: Contributor, normalized: Contributor, username: Option<string>)
    ensures
      var m := MergeRecords(existing, normalized, username);
      && m.name == (if Truthy(username) then username.value else existing.name)
      && m.email == (if existing.email.Some? then existing.email else normalized.email)
      && m.username == (if existing.username.Some? then existing.username else normalized.username)
      && m.url == (if Truthy(existing.url) then existing.url else if Truthy(normalized.url) then normalized.url else existing.url)
      && m.avatar == (if Truthy(existing.avatar) then existing.avatar else if Truthy(normalized.avatar) then normalized.avatar else existing.avatar)
      && m.commits == (if existing.commits.None? && normalized.commits.None? then None
                       else Some(existing.commits.GetOr(0) + normalized.commits.GetOr(0)))
  {
  }

  /** The key of the record at position `index`. */
  function KeyOf(resolve: Resolver, c: Contributor, index: nat): string {
    ResolveKey(resolve(c), c.email, c.name, index)
  }

  /** The key of every input record, position by position. */
  function KeySeq(resolve: Resolver, list: seq<Contributor>): (ks: seq<string>)
    ensures |ks| == |list|
  {
    seq(|list|, i requires 0 <= i < |list| => KeyOf(resolve, list[i], i))
  }

  lemma KeySeqPrefix(resolve: Resolver, list: seq<Contributor>)
    requires list != []
    ensures KeySeq(resolve, list) == KeySeq(resolve, list[..|list| - 1]) + [KeyOf(resolve, list[|list| - 1], |list| - 1)]
  {
  }

  /** A JavaScript `Map` from key to record: its keys in insertion order, and its entries. */
  datatype Accumulator = Accumulator(keys: seq<string>, store: map<string, Contributor>)

  /** The insertion order lists every key of the map exactly once. */
  ghost predicate WellFormed(acc: Accumulator) {
    && (forall i, j :: 0 <= i < j < |acc.keys| ==> acc.keys[i] != acc.keys[j])
    && (forall k :: k in acc.store <==> k in acc.keys)
  }

  /** One iteration of the `forEach` body on the record at position `index`. */
  function Step(resolve: Resolver, acc: Accumulator, c: Contributor, index: nat): (r: Accumulator)
  {
    var username := resolve(c);
    var normalized := Normalize(c, username);
    var key := ResolveKey(username, c.email, c.name, index);
    if key !in acc.store then Accumulator(acc.keys + [key], acc.store[key := normalized])
    else Accumulator(acc.keys, acc.store[key := MergeRecords(acc.store[key], normalized, username)])
  }

  /**
   * One iteration touches only the entry of the record's key: the key is in
   * the map afterwards, it is appended to the insertion order only when it
   * is new, every other key keeps its entry, and the order stays well formed.
   */
  lemma StepFrame(resolve: Resolver, acc: Accumulator, c: Contributor, index: nat)
    ensures var r, key := Step(resolve, acc, c, index), KeyOf(resolve, c, index);
      && key in r.store
      && r.keys == (if key in acc.store then acc.keys else acc.keys + [key])
      && (forall k :: k != key ==> (k in r.store <==> k in acc.store))
      && (forall k :: k in acc.store && k != key ==> r.store[k] == acc.store[k])
    ensures WellFormed(acc) ==> WellFormed(Step(resolve, acc, c, index))
  {
  }

  /** The map after the whole input: never more keys than records, each key listed once. */
  function Fold(resolve: Resolver, list: seq<Contributor>): (acc: Accumulator)
    ensures WellFormed(acc)
    ensures |acc.keys| <= |list|
    decreases |list|
  {
    if list == [] then Accumulator([], map[])
    else
      var prev := Fold(resolve, list[..|list| - 1]);
      Step(resolve, prev, list[|list| - 1], |list| - 1)
  }

  /** `Array.from(map.values())`: the entries in key insertion order. */
  function Values(acc: Accumulator): (vs: seq<Contributor>)
    requires WellFormed(acc)
    ensures |vs| == |acc.keys|
    ensures forall a :: 0 <= a < |vs| ==> vs[a] == acc.store[acc.keys[a]]
    ensures forall k :: k in acc.store ==> acc.store[k] in vs
  {
    var vs := seq(|acc.keys|, a requires 0 <= a < |acc.keys| => acc.store[acc.keys[a]]);
    assert forall k :: k in acc.store ==> acc.store[k] in vs by {
      forall k | k in acc.store ensures acc.store[k] in vs {
        var a :| 0 <= a < |acc.keys| && acc.keys[a] == k;
        assert vs[a] == acc.store[k];
      }
    }
    vs
  }

  /** The distinct entries of `s` in the order of their first occurrence. */
  function FirstOccurrences(s: seq<string>): (d: seq<string>)
    ensures forall x :: x in d <==> x in s
    ensures forall i, j :: 0 <= i < j < |d| ==> d[i] != d[j]
  {
    if s == [] then []
    else
      var d := FirstOccurrences(s[..|s| - 1]);
      assert forall x :: x in s <==> x in s[..|s| - 1] || x == s[|s| - 1];
      if s[|s| - 1] in d then d else d + [s[|s| - 1]]
  }

  /** The position of the first occurrence of `x`, or `|s|` when there is none. */
  function FirstIndex(s: seq<string>, x: string): (r: nat)
    ensures r <= |s| && x !in s[..r]
    ensures r < |s| <==> x in s
    ensures r < |s| ==> s[r] == x
  {
    if s == [] then 0
    else if s[0] == x then 0
    else
      var r := FirstIndex(s[1..], x) + 1;
      assert s[..r] == [s[0]] + s[1..][..r - 1];
      assert x in s ==> x in s[1..] by {
        if x in s { var i :| 0 <= i < |s| && s[i] == x; assert s[1..][i - 1] == x; }
      }
      r
  }

  /** The first occurrence is the position of `x` with no `x` before it. */
  lemma {:induction false} FirstIndexUnique(s: seq<string>, x: string, i: nat)
    requires i < |s| && s[i] == x && x !in s[..i]
    ensures FirstIndex(s, x) == i
  {
    if i > 0 {
      assert s[0] == s[..i][0];
      assert s[1..][..i - 1] == s[1..i];
      FirstIndexUnique(s[1..], x, i - 1);
    }
  }

  lemma FirstIndexAppend(s: seq<string>, x: string, y: string)
    requires x in s + [y]
    ensures FirstIndex(s + [y], x) == if x in s then FirstIndex(s, x) else |s|
  {
    if x in s {
      var q := FirstIndex(s, x);
      assert (s + [y])[..q] == s[..q];
      FirstIndexUnique(s + [y], x, q);
    } else {
      assert (s + [y])[..|s|] == s;
      FirstIndexUnique(s + [y], x, |s|);
    }
  }

  /** FirstOccurrences lists its entries in increasing order of first occurrence. */
  lemma {:induction false} FirstOccurrencesOrder(s: seq<string>)
    ensures forall a, b :: 0 <= a < b < |FirstOccurrences(s)| ==>
      FirstIndex(s, FirstOccurrences(s)[a]) < FirstIndex(s, FirstOccurrences(s)[b])
  {
    if s != [] {
      var p, y := s[..|s| - 1], s[|s| - 1];
      FirstOccurrencesOrder(p);
      assert s == p + [y];
      FirstOccurrencesOrderStep(p, y);
    }
  }

  lemma FirstOccurrencesOrderStep(p: seq<string>, y: string)
    requires forall a, b :: 0 <= a < b < |FirstOccurrences(p)| ==>
      FirstIndex(p, FirstOccurrences(p)[a]) < FirstIndex(p, FirstOccurrences(p)[b])
    ensures forall a, b :: 0 <= a < b < |FirstOccurrences(p + [y])| ==>
      FirstIndex(p + [y], FirstOccurrences(p + [y])[a]) < FirstIndex(p + [y], FirstOccurrences(p + [y])[b])
  {
    var s := p + [y];
    assert s[..|s| - 1] == p;
    var d, d' := FirstOccurrences(p), FirstOccurrences(s);
    forall a | 0 <= a < |d| ensures FirstIndex(s, d[a]) == FirstIndex(p, d[a]) {
      FirstIndexAppend(p, d[a], y);
    }
    if y in d {
      assert d' == d;
    } else {
      assert d' == d + [y];
      FirstIndexAppend(p, y, y);
      forall a, b | 0 <= a < b < |d'| ensures FirstIndex(s, d'[a]) < FirstIndex(s, d'[b]) {
        assert d'[a] == d[a];
        if b < |d| { assert d'[b] == d[b]; }
      }
    }
  }

  /**
   * The map holds exactly the keys of the input records, each key listed
   * where it first occurs in the input; later merges do not move a key.
   */
  lemma {:induction false} FoldKeys(resolve: Resolver, list: seq<Contributor>)
    ensures Fold(resolve, list).keys == FirstOccurrences(KeySeq(resolve, list))
    ensures forall k :: k in Fold(resolve, list).store <==> k in KeySeq(resolve, list)
    decreases |list|
  {
    if list != [] {
      var n := |list|;
      FoldKeys(resolve, list[..n - 1]);
      KeySeqPrefix(resolve, list);
      var ks := KeySeq(resolve, list);
      assert ks[..n - 1] == KeySeq(resolve, list[..n - 1]);
    }
  }

  /** A non-empty input yields at least one merged record. */
  lemma FoldNonEmpty(resolve: Resolver, list: seq<Contributor>)
    requires list != []
    ensures Fold(resolve, list).keys != []
  {
    FoldKeys(resolve, list);
    assert KeySeq(resolve, list)[0] in KeySeq(resolve, list);
  }

  /** The input records whose key is `k`, in input order. */
  function Group(cs: seq<Contributor>, ks: seq<string>, k: string): (g: seq<Contributor>)
    requires |cs| == |ks|
    ensures |g| <= |cs|
  {
    if cs == [] then []
    else Group(cs[..|cs| - 1], ks[..|ks| - 1], k) + (if ks[|ks| - 1] == k then [cs[|cs| - 1]] else [])
  }

  /** A record belongs to the group of `k` exactly when it sits at a position whose key is `k`. */
  lemma {:induction false} GroupMembers(cs: seq<Contributor>, ks: seq<string>, k: string)
    requires |cs| == |ks|
    ensures forall x :: x in Group(cs, ks, k) <==> exists i :: 0 <= i < |cs| && ks[i] == k && cs[i] == x
    ensures Group(cs, ks, k) != [] <==> k in ks
  {
    if cs != [] {
      var n := |cs|;
      GroupMembers(cs[..n - 1], ks[..n - 1], k);
      forall x | x in Group(cs, ks, k) ensures exists i :: 0 <= i < n && ks[i] == k && cs[i] == x {
        if x in Group(cs[..n - 1], ks[..n - 1], k) {
          var i :| 0 <= i < n - 1 && ks[..n - 1][i] == k && cs[..n - 1][i] == x;
          assert ks[i] == k && cs[i] == x;
        }
      }
      forall x | exists i :: 0 <= i < n && ks[i] == k && cs[i] == x ensures x in Group(cs, ks, k) {
        var i :| 0 <= i < n && ks[i] == k && cs[i] == x;
        if i < n - 1 {
          assert ks[..n - 1][i] == k && cs[..n - 1][i] == x;
        }
      }
      if k in ks && ks[n - 1] != k {
        var i :| 0 <= i < n && ks[i] == k;
        assert ks[..n - 1][i] == k;
      }
    }
  }

  /** The optional string properties a merged record takes from its group. */
  datatype Field = EmailField | UrlField | UsernameField | AvatarField

  function Get(c: Contributor, f: Field): Option<string> {
    match f
    case EmailField => c.email
    case UrlField => c.url
    case UsernameField => c.username
    case AvatarField => c.avatar
  }

  /** One property of every record of a group, in order. */
  function Column(g: seq<Contributor>, f: Field): (col: seq<Option<string>>)
    ensures |col| == |g|
  {
    seq(|g|, i requires 0 <= i < |g| => Get(g[i], f))
  }

  lemma ColumnAppend(g: seq<Contributor>, c: Contributor, f: Field)
    ensures Column(g + [c], f) == Column(g, f) + [Get(c, f)]
  {
  }

  /** The last non-empty username resolved for a record of the group. */
  function LastUsername(resolve: Resolver, g: seq<Contributor>): (r: Option<string>)
    ensures Truthy(r) || r.None?
  {
    if g == [] then None
    else
      var u := resolve(g[|g| - 1]);
      if Truthy(u) then u else LastUsername(resolve, g[..|g| - 1])
  }

  predicate HasCommits(g: seq<Contributor>) {
    exists i :: 0 <= i < |g| && g[i].commits.Some?
  }

  /** The total of the commit counts of a group, a missing count adding 0. */
  function CommitSum(g: seq<Contributor>): int {
    if g == [] then 0 else CommitSum(g[..|g| - 1]) + g[|g| - 1].commits.GetOr(0)
  }

  lemma {:induction false} CommitSumWithoutCounts(g: seq<Contributor>)
    requires !HasCommits(g)
    ensures CommitSum(g) == 0
  {
    if g != [] {
      var p := g[..|g| - 1];
      assert !HasCommits(p) by {
        forall i | 0 <= i < |p| ensures p[i].commits.None? {
          assert p[i] == g[i];
        }
      }
      CommitSumWithoutCounts(p);
      assert g[|g| - 1].commits.None?;
    }
  }

  lemma CommitsAppend(g: seq<Contributor>, c: Contributor)
    ensures HasCommits(g + [c]) <==> HasCommits(g) || c.commits.Some?
    ensures CommitSum(g + [c]) == CommitSum(g) + c.commits.GetOr(0)
  {
    var g' := g + [c];
    assert g'[..|g'| - 1] == g;
    if HasCommits(g) {
      var i :| 0 <= i < |g| && g[i].commits.Some?;
      assert g'[i] == g[i];
    }
    if c.commits.Some? {
      assert g'[|g|] == c;
    }
    if HasCommits(g') {
      var i :| 0 <= i < |g'| && g'[i].commits.Some?;
      if i < |g| { assert g[i] == g'[i]; }
    }
  }

  /**
   * The record a group of records sharing a key merges into:
   * - `name`: the last resolved username of the group, else the first record's name;
   * - `email` and `username`: the first record's value when it has one, else the next one's, and so on;
   * - `url` and `avatar`: the first non-empty value of the group, else the first record's value;
   * - `commits`: the sum of the counts, present when some record has a count.
   */
  function Expected(resolve: Resolver, g: seq<Contributor>): Contributor
    requires g != []
  {
    Contributor(
      match LastUsername(resolve, g) case Some(u) => u case None => g[0].name,
      FirstPresent(Column(g, EmailField)),
      Or(FirstTruthy(Column(g, UrlField)), g[0].url),
      FirstPresent(Column(g, UsernameField)),
      Or(FirstTruthy(Column(g, AvatarField)), g[0].avatar),
      if HasCommits(g) then Some(CommitSum(g)) else None)
  }

  /** A group of one record is that record, renamed to its resolved username. */
  lemma ExpectedSingle(resolve: Resolver, c: Contributor)
    ensures Expected(resolve, [c]) == Normalize(c, resolve(c))
  {
    var g := [c];
    var u := resolve(c);
    var e, n := Expected(resolve, g), Normalize(c, u);
    assert g[..0] == [];
    assert LastUsername(resolve, g) == if Truthy(u) then u else None;
    assert e.name == n.name;
    forall f: Field ensures Column(g, f) == [Get(c, f)] && Column(g, f)[1..] == [] { }
    assert e.email == n.email;
    assert e.url == n.url;
    assert e.username == n.username;
    assert e.avatar == n.avatar;
    assert HasCommits(g) <==> c.commits.Some? by {
      if c.commits.Some? { assert g[0].commits.Some?; }
    }
    assert CommitSum(g) == c.commits.GetOr(0);
    assert e.commits == n.commits;
  }

  lemma ExpectedAppendName(resolve: Resolver, g: seq<Contributor>, c: Contributor)
    requires g != []
    ensures
      var u := resolve(c);
      Expected(resolve, g + [c]).name == MergeRecords(Expected(resolve, g), Normalize(c, u), u).name
  {
    var g' := g + [c];
    assert g'[..|g'| - 1] == g;
    assert g'[0] == g[0];
    MergePrecedence(Expected(resolve, g), Normalize(c, resolve(c)), resolve(c));
  }

  lemma ExpectedAppendFields(resolve: Resolver, g: seq<Contributor>, c: Contributor)
    requires g != []
    ensures
      var u := resolve(c);
      var e', m := Expected(resolve, g + [c]), MergeRecords(Expected(resolve, g), Normalize(c, u), u);
      e'.email == m.email && e'.username == m.username && e'.url == m.url && e'.avatar == m.avatar
  {
    var g' := g + [c];
    assert g'[0] == g[0];
    forall f: Field ensures Column(g', f) == Column(g, f) + [Get(c, f)] {
      ColumnAppend(g, c, f);
    }
    FirstPresentAppend(Column(g, EmailField), c.email);
    FirstPresentAppend(Column(g, UsernameField), c.username);
    FirstTruthyAppend(Column(g, UrlField), c.url);
    FirstTruthyAppend(Column(g, AvatarField), c.avatar);
    assert Column(g, UrlField)[0] == g[0].url;
    assert Column(g, AvatarField)[0] == g[0].avatar;
    MergePrecedence(Expected(resolve, g), Normalize(c, resolve(c)), resolve(c));
  }

  lemma ExpectedAppendCommits(resolve: Resolver, g: seq<Contributor>, c: Contributor)
    requires g != []
    ensures
      var u := resolve(c);
      Expected(resolve, g + [c]).commits == MergeRecords(Expected(resolve, g), Normalize(c, u), u).commits
  {
    var u := resolve(c);
    var e, n := Expected(resolve, g), Normalize(c, u);
    CommitsAppend(g, c);
    if !HasCommits(g) {
      CommitSumWithoutCounts(g);
    }
    MergePrecedence(e, n, u);
    assert n.commits == c.commits;
    assert e.commits == if HasCommits(g) then Some(CommitSum(g)) else None;
  }

  /** Merging the next record of a group into its merged record gives the merge of the longer group. */
  lemma ExpectedAppend(resolve: Resolver, g: seq<Contributor>, c: Contributor)
    requires g != []
    ensures
      var u := resolve(c);
      Expected(resolve, g + [c]) == MergeRecords(Expected(resolve, g), Normalize(c, u), u)
  {
    ExpectedAppendName(resolve, g, c);
    ExpectedAppendFields(resolve, g, c);
    ExpectedAppendCommits(resolve, g, c);
  }

  /** `r` is the merge of all input records whose key is `k`. */
  ghost predicate MergeOfKey(resolve: Resolver, list: seq<Contributor>, k: string, r: Contributor) {
    var g := Group(list, KeySeq(resolve, list), k);
    g != [] && r == Expected(resolve, g)
  }

  /** The induction step of FoldStore, for one key of the map after the last record. */
  lemma FoldStoreStep(resolve: Resolver, list: seq<Contributor>, k: string)
    requires list != []
    requires
      var prefix := list[..|list| - 1];
      forall k :: k in Fold(resolve, prefix).store ==> MergeOfKey(resolve, prefix, k, Fold(resolve, prefix).store[k])
    requires k in Fold(resolve, list).store
    ensures MergeOfKey(resolve, list, k, Fold(resolve, list).store[k])
  {
    var n := |list|;
    var prefix, c := list[..n - 1], list[n - 1];
    FoldKeys(resolve, prefix);
    KeySeqPrefix(resolve, list);
    var acc, acc' := Fold(resolve, prefix), Fold(resolve, list);
    var ks, ks' := KeySeq(resolve, prefix), KeySeq(resolve, list);
    var u := resolve(c);
    var key := KeyOf(resolve, c, n - 1);
    assert acc' == Step(resolve, acc, c, n - 1);
    assert ks'[..n - 1] == ks && ks'[n - 1] == key;
    var g := Group(prefix, ks, k);
    var g' := Group(list, ks', k);
    assert g' == g + (if key == k then [c] else []);
    if k != key {
      assert acc'.store[k] == acc.store[k];
      assert MergeOfKey(resolve, prefix, k, acc.store[k]);
      assert g' == g;
    } else if key !in acc.store {
      GroupMembers(prefix, ks, key);
      assert g' == [c];
      assert acc'.store[k] == Normalize(c, u);
      ExpectedSingle(resolve, c);
    } else {
      assert MergeOfKey(resolve, prefix, k, acc.store[k]);
      assert acc'.store[k] == MergeRecords(Expected(resolve, g), Normalize(c, u), u);
      ExpectedAppend(resolve, g, c);
      assert g' == g + [c];
    }
    assert g' != [] && acc'.store[k] == Expected(resolve, g');
  }

  /** Every entry of the map is the merge of the input records with its key. */
  lemma {:induction false} FoldStore(resolve: Resolver, list: seq<Contributor>)
    ensures forall k :: k in Fold(resolve, list).store ==> MergeOfKey(resolve, list, k, Fold(resolve, list).store[k])
    decreases |list|
  {
    if list != [] {
      FoldStore(resolve, list[..|list| - 1]);
      forall k | k in Fold(resolve, list).store ensures MergeOfKey(resolve, list, k, Fold(resolve, list).store[k]) {
        FoldStoreStep(resolve, list, k);
      }
    }
  }

  /**
   * The merge step of the pass for a key already in the map: start from
   * `{ ...normalized, ...existing }` and correct the name, url, avatar and
   * commit count one by one.
   */
  method MergeInto(existing: Contributor, normalized: Contributor, username: Option<string>) returns (merged: Contributor)
    ensures merged == MergeRecords(existing, normalized, username)
  {
    merged := Contributor(
      existing.name,
      Overlay(existing.email, normalized.email),
      Overlay(existing.url, normalized.url),
      Overlay(existing.username, normalized.username),
      Overlay(existing.avatar, normalized.avatar),
      Overlay(existing.commits, normalized.commits));
    if Truthy(username) && merged.name != username.value {
      merged := merged.(name := username.value);
    }
    if !Truthy(merged.url) {
      merged := merged.(url := Or(normalized.url, existing.url));
    }
    if !Truthy(merged.avatar) {
      merged := merged.(avatar := Or(normalized.avatar, existing.avatar));
    }
    if existing.commits.Some? || normalized.commits.Some? {
      var current := if existing.commits.Some? then existing.commits.value else 0;
      var additional := if normalized.commits.Some? then normalized.commits.value else 0;
      merged := merged.(commits := Some(current + additional));
    }
  }

  /**
   * `normalizeContributors`: the `forEach` pass over the input, updating the
   * insertion-ordered map in place, then its values in insertion order.
   * The result has one record per distinct key, the merge of the records
   * sharing that key, in the order in which each key first occurs.
   * `resolve` is `resolveGitHubUsername` (GitHubResolver) in the theme.
   */
  method NormalizeContributors(resolve: Resolver, list: seq<Contributor>) returns (result: seq<Contributor>)
    ensures result == Values(Fold(resolve, list))
    ensures |result| <= |list|
    ensures forall a :: 0 <= a < |result| ==> MergeOfKey(resolve, list, Fold(resolve, list).keys[a], result[a])
  {
    var keys: seq<string> := [];
    var store: map<string, Contributor> := map[];
    var index := 0;
    assert list[..0] == [];
    while index < |list|
      invariant 0 <= index <= |list|
      invariant Accumulator(keys, store) == Fold(resolve, list[..index])
    {
      var contributor := list[index];
      var username := resolve(contributor);
      var normalized := contributor;
      if Truthy(username) {
        normalized := normalized.(name := username.value);
      }
      var key := ResolveKey(username, contributor.email, contributor.name, index);
      ghost var next := Step(resolve, Accumulator(keys, store), contributor, index);
      assert list[..index + 1][..index] == list[..index];
      assert Fold(resolve, list[..index + 1]) == next;
      assert normalized == Normalize(contributor, username);
      if key !in store {
        keys := keys + [key];
        store := store[key := normalized];
      } else {
        var merged := MergeInto(store[key], normalized, username);
        store := store[key := merged];
      }
      assert Accumulator(keys, store) == next;
      index := index + 1;
    }
    assert list[..index] == list;
    result := Values(Accumulator(keys, store));
    FoldStore(resolve, list);
  }

  /** A resolver that finds no username for any record. */
  function NoUsername(c: Contributor): Option<string> {
    None
  }

  /** A record with only a name. */
  function Named(name: string): Contributor {
    Contributor(name, None, None, None, None, None)
  }

  /** The fold over one more record is one more step. */
  lemma FoldSnoc(resolve: Resolver, p: seq<Contributor>, c: Contributor)
    ensures Fold(resolve, p + [c]) == Step(resolve, Fold(resolve, p), c, |p|)
  {
    assert (p + [c])[..|p|] == p;
  }

  /** A record named in lower case is keyed by its name. */
  lemma NamedKey(name: string, index: nat)
    requires name != ""
    requires forall i :: 0 <= i < |name| ==> !IsUpperAscii(name[i])
    ensures KeyOf(NoUsername, Named(name), index) == name
  {
    ToLowerOfLower(name);
  }

  /** A lower-case name other than the anonymous keys of positions `j` and `j + 1`. */
  predicate PlainName(n: string, j: nat) {
    && n != ""
    && (forall i :: 0 <= i < |n| ==> !IsUpperAscii(n[i]))
    && n != AnonymousKey(j) && n != AnonymousKey(j + 1)
  }

  /** A record named with an anonymous key is keyed by that name. */
  lemma AnonymousNameKey(j: nat, index: nat)
    ensures KeyOf(NoUsername, Named(AnonymousKey(j)), index) == AnonymousKey(j)
  {
    assert ResolveKey(None, None, "", j) == AnonymousKey(j);
    NamedKey(AnonymousKey(j), index);
  }

  /** Without a username, a record whose key is new is stored as it is, its key appended. */
  lemma RunNew(p: seq<Contributor>, c: Contributor, key: string)
    requires KeyOf(NoUsername, c, |p|) == key && key !in Fold(NoUsername, p).store
    ensures Fold(NoUsername, p + [c]).keys == Fold(NoUsername, p).keys + [key]
    ensures Fold(NoUsername, p + [c]).store == Fold(NoUsername, p).store[key := c]
  {
    FoldSnoc(NoUsername, p, c);
  }

  /** A record without commit counts merged with itself is itself. */
  lemma MergeSelf(c: Contributor)
    requires c.commits.None?
    ensures MergeRecords(c, c, None) == c
  {
  }

  /** Without a username, a copy of the stored record changes nothing. */
  lemma RunSame(p: seq<Contributor>, c: Contributor, key: string)
    requires KeyOf(NoUsername, c, |p|) == key && key in Fold(NoUsername, p).store
    requires Fold(NoUsername, p).store[key] == c && c.commits.None?
    ensures Fold(NoUsername, p + [c]) == Fold(NoUsername, p)
  {
    FoldSnoc(NoUsername, p, c);
    MergeSelf(c);
    var acc := Fold(NoUsername, p);
    assert acc.store[key := c] == acc.store;
  }

  /** A run over one record `x` keyed `k`. */
  lemma RunOne(x: Contributor, k: string)
    requires KeyOf(NoUsername, x, 0) == k
    ensures Fold(NoUsername, [x]) == Accumulator([k], map[k := x])
  {
    var p0: seq<Contributor> := [];
    RunNew(p0, x, k);
    assert p0 + [x] == [x];
  }

  /** A run over `x, x`: the copy merges into the first record and changes nothing. */
  lemma RunTwo(x: Contributor, k: string)
    requires KeyOf(NoUsername, x, 0) == k && KeyOf(NoUsername, x, 1) == k && x.commits.None?
    ensures Fold(NoUsername, [x, x]) == Accumulator([k], map[k := x])
  {
    RunOne(x, k);
    RunSame([x], x, k);
    assert [x] + [x] == [x, x];
  }

  /** A run over `x, x, a` with two distinct keys. */
  lemma RunThree(x: Contributor, a: Contributor, k: string, l: string)
    requires KeyOf(NoUsername, x, 0) == k && KeyOf(NoUsername, x, 1) == k && x.commits.None?
    requires KeyOf(NoUsername, a, 2) == l && l != k
    ensures Fold(NoUsername, [x, x, a]) == Accumulator([k, l], map[k := x, l := a])
  {
    var p := [x, x];
    RunTwo(x, k);
    RunNew(p, a, l);
    assert p + [a] == [x, x, a];
  }

  /** A run over `x, x, a, e` with three distinct keys. */
  lemma RunFour(x: Contributor, a: Contributor, e: Contributor, k: string, l: string, m: string)
    requires KeyOf(NoUsername, x, 0) == k && KeyOf(NoUsername, x, 1) == k && x.commits.None?
    requires KeyOf(NoUsername, a, 2) == l && l != k
    requires KeyOf(NoUsername, e, 3) == m && m != k && m != l
    ensures Fold(NoUsername, [x, x, a, e]) == Accumulator([k, l, m], map[k := x, l := a, m := e])
  {
    var p := [x, x, a];
    RunThree(x, a, k, l);
    RunNew(p, e, m);
    assert p + [e] == [x, x, a, e];
  }

  /** A run over `x, a, e` where `e` takes the key of `a`. */
  lemma RunMerging(x: Contributor, a: Contributor, e: Contributor, k: string, l: string)
    requires KeyOf(NoUsername, x, 0) == k && KeyOf(NoUsername, a, 1) == l && l != k
    requires KeyOf(NoUsername, e, 2) == l
    ensures Fold(NoUsername, [x, a, e]).keys == [k, l]
  {
    var p0: seq<Contributor> := [];
    var p1 := p0 + [x];
    var p2 := p1 + [a];
    RunNew(p0, x, k);
    RunNew(p1, a, l);
    FoldSnoc(NoUsername, p2, e);
    assert p2 + [e] == [x, a, e];
  }

  /** The values of a map with three distinct keys, in insertion order. */
  lemma ValuesThree(x: Contributor, a: Contributor, e: Contributor, k: string, l: string, m: string)
    requires l != k && m != k && m != l
    ensures Values(Accumulator([k, l, m], map[k := x, l := a, m := e])) == [x, a, e]
  {
    var vs := Values(Accumulator([k, l, m], map[k := x, l := a, m := e]));
    assert vs[0] == x && vs[1] == a && vs[2] == e;
  }

  /** The output of a run over `x, x, a, e` with three distinct keys. */
  lemma OutputFour(x: Contributor, a: Contributor, e: Contributor, k: string, l: string, m: string)
    requires KeyOf(NoUsername, x, 0) == k && KeyOf(NoUsername, x, 1) == k && x.commits.None?
    requires KeyOf(NoUsername, a, 2) == l && l != k
    requires KeyOf(NoUsername, e, 3) == m && m != k && m != l
    ensures Values(Fold(NoUsername, [x, x, a, e])) == [x, a, e]
  {
    RunFour(x, a, e, k, l, m);
    ValuesThree(x, a, e, k, l, m);
  }

  /**
   * Two runs over `x, x, a, e`: when `e` is keyed apart from `a` at position 3
   * but with `a` at position 2, the first run keeps three records and the
   * second, over that output, only two.
   */
  lemma RunTwice(x: Contributor, a: Contributor, e: Contributor, k: string, l: string, m: string)
    requires KeyOf(NoUsername, x, 0) == k && KeyOf(NoUsername, x, 1) == k && x.commits.None?
    requires KeyOf(NoUsername, a, 1) == l && KeyOf(NoUsername, a, 2) == l && l != k
    requires KeyOf(NoUsername, e, 3) == m && m != k && m != l
    requires KeyOf(NoUsername, e, 2) == l
    ensures var first := Values(Fold(NoUsername, [x, x, a, e]));
      && first == [x, a, e]
      && |Values(Fold(NoUsername, first))| == 2
  {
    OutputFour(x, a, e, k, l, m);
    RunMerging(x, a, e, k, l);
  }

  /**
   * With a resolver that finds no username, the pass is not idempotent. Over
   * `n, n, anonymous-2, ""` it keeps three records, with the nameless one
   * last, under `anonymous-3`. Run again on that output, the nameless record
   * sits at position 2, its key becomes `anonymous-2`, and it merges with the
   * record named `anonymous-2`.
   */
  lemma NotIdempotentWithoutUsernames(n: string, j: nat)
    requires j == 2 && PlainName(n, j)
    ensures var first := Values(Fold(NoUsername, [Named(n), Named(n), Named(AnonymousKey(j)), Named("")]));
      && first == [Named(n), Named(AnonymousKey(j)), Named("")]
      && |Values(Fold(NoUsername, first))| == 2
  {
    var e := Named("");
    NamedKey(n, 0);
    NamedKey(n, 1);
    AnonymousNameKey(j, 2);
    AnonymousNameKey(j, 1);
    AnonymousKeysDistinct(j, j + 1);
    assert KeyOf(NoUsername, e, 3) == AnonymousKey(j + 1);
    assert KeyOf(NoUsername, e, 2) == AnonymousKey(j);
    RunTwice(Named(n), Named(AnonymousKey(j)), e, n, AnonymousKey(j), AnonymousKey(j + 1));
  }

  /** A record with no username, url or email resolves to no GitHub username. */
  lemma NoSignalNoUsername(parse: UrlParser, c: Contributor)
    requires c.username.None? && c.url.None? && c.email.None?
    ensures GitHubResolver(parse)(c) == None
  {
    assert Candidates(parse, c) == [None, None, None];
  }

  /** Two resolvers that agree on every record of the input give the same map. */
  lemma {:induction false} FoldSame(r1: Resolver, r2: Resolver, list: seq<Contributor>)
    requires forall i :: 0 <= i < |list| ==> r1(list[i]) == r2(list[i])
    ensures Fold(r1, list) == Fold(r2, list)
    decreases |list|
  {
    if list != [] {
      var p := list[..|list| - 1];
      forall i | 0 <= i < |p| ensures r1(p[i]) == r2(p[i]) {
        assert p[i] == list[i];
      }
      FoldSame(r1, r2, p);
    }
  }

  /** Records with only a name give the same map under the theme's resolver as under NoUsername. */
  lemma FoldNamed(parse: UrlParser, list: seq<Contributor>)
    requires forall i :: 0 <= i < |list| ==> list[i] == Named(list[i].name)
    ensures Fold(GitHubResolver(parse), list) == Fold(NoUsername, list)
  {
    forall i | 0 <= i < |list| ensures GitHubResolver(parse)(list[i]) == NoUsername(list[i]) {
      NoSignalNoUsername(parse, list[i]);
    }
    FoldSame(GitHubResolver(parse), NoUsername, list);
  }

  /** FoldNamed for the names `a, b, c` and `a, a, b, c`. */
  lemma FoldNamedThreeFour(parse: UrlParser, a: string, b: string, c: string)
    ensures Fold(GitHubResolver(parse), [Named(a), Named(b), Named(c)]) == Fold(NoUsername, [Named(a), Named(b), Named(c)])
    ensures Fold(GitHubResolver(parse), [Named(a), Named(a), Named(b), Named(c)]) == Fold(NoUsername, [Named(a), Named(a), Named(b), Named(c)])
  {
    FoldNamed(parse, [Named(a), Named(b), Named(c)]);
    FoldNamed(parse, [Named(a), Named(a), Named(b), Named(c)]);
  }

  /**
   * The theme's pass is not idempotent: over records named `n, n,
   * anonymous-2, ""`, which carry no username, url or email, the first run
   * outputs three records and a second run over that output only two.
   */
  lemma NotIdempotent(parse: UrlParser, n: string, j: nat)
    requires j == 2 && PlainName(n, j)
    ensures var first := Values(Fold(GitHubResolver(parse), [Named(n), Named(n), Named(AnonymousKey(j)), Named("")]));
      && first == [Named(n), Named(AnonymousKey(j)), Named("")]
      && |Values(Fold(GitHubResolver(parse), first))| == 2
  {
    NotIdempotentWithoutUsernames(n, j);
    FoldNamedThreeFour(parse, n, AnonymousKey(j), "");
  }

  /** `x` is such a name. */
  lemma PlainNameX()
    ensures PlainName("x", 2)
  {
    assert AnonymousKey(2)[0] == 'a';
    assert AnonymousKey(3)[0] == 'a';
  }
}
