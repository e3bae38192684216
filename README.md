# Contributor de-duplication for the Plume theme, in Dafny

The theme shows a page's git contributors at the foot of the page. The git
plugin reports one record per commit identity: a name, and optionally an
email, a profile URL, a username, an avatar and a commit count. The same
person often shows up several times under different names or emails. The
`useContributors` composable turns that list into the one the page shows:

- Each record may get a GitHub username. It is the first non-empty one of:
  - the explicit `username`;
  - a `github.com` profile or app URL;
  - a `users.noreply.github.com` commit email.
- Each record gets a grouping key. The key is the lower-cased username, else
  the lower-cased email, else the lower-cased name. A record with none of
  these gets `anonymous-<position>`.
- Records that share a key are merged into one:
  - the stored record's properties win;
  - the name becomes the resolved username;
  - an empty url or avatar is filled in from a later record;
  - commit counts add up.
- The merged records are listed in the order in which their keys first
  occur.
- A page flag or the theme setting turns the list off. The theme's options
  object chooses the layout mode.

The model has these modules:

- `Text`: ASCII lower-casing, `indexOf`, `split`/`join` and decimal
  rendering.
- `Records`: the contributor record and JavaScript truthiness.
- `Usernames`: extracting a username from a URL or an email, and resolving a
  record's username.
- `Keys`: the grouping key.
- `Merge`: the grouping pass, as a loop over the input that updates an
  insertion-ordered map.
- `Display`: the mode, the on/off logic and the composable's three outputs.

The grouping pass (`Merge.NormalizeContributors`) is a method. It is proved
equal to a fold (`Merge.Fold`) over the input. The fold in turn is proved to
have two properties:

- it keys the map by the first occurrences of the record keys
  (`Merge.FoldKeys`, `Merge.FirstOccurrencesOrder`);
- it stores, for each key, a merge of exactly the records with that key,
  with an explicit meaning for each property (`Merge.Expected`,
  `Merge.FoldStore`).

Three behaviours of the source are worth stating outright:

- **Host test.** The host test accepts any host name that ends in the
  characters `github.com`, so `notgithub.com` is accepted too
  (`Usernames.SuffixHostAccepted`), not only `github.com` and its
  subdomains.
- **Merge precedence.** The spread `{ ...normalized, ...existing }` lets the
  stored record win on every property it has. Only the name (replaced by a
  resolved username), an empty url or avatar, and the commit count are
  corrected afterwards (`Merge.MergePrecedence`).
- **Not idempotent.** Running the pass on its own output can change it. A
  record named `anonymous-<n>` shares a key with a record that has no
  username, email or name at position `n` (`Keys.AnonymousKeyMeetsName`), and
  positions change between runs. Over the records named `x`, `x`,
  `anonymous-2` and the empty name, the first run keeps three records, the
  nameless one last under `anonymous-3`. In a second run over that output
  the nameless record sits at position 2, takes the key `anonymous-2` and is
  merged away, leaving two records. The records carry no username, url or
  email, so the theme's own resolver finds no username for them
  (`Merge.NotIdempotent`).

## Model

| member | source | states |
|---|---|---|
| Text.ToLower | theme/src/client/composables/contributors.ts:92-97 | `toLowerCase` on ASCII: the length is kept, each character is lowered on its own, and no upper-case letter remains |
| Text.IndexOf | theme/src/client/composables/contributors.ts:156 | `indexOf` gives the first position of the character, and nothing exactly when the character is absent |
| Text.IndexOfFirst | theme/src/client/composables/contributors.ts:156-158 | in `p + c + t` with no `c` in `p`, the first `c` is at position `|p|` |
| Text.EndsWithIffConcat | theme/src/client/composables/contributors.ts:125 | `endsWith` holds exactly when the string is some text followed by the suffix |
| Text.Split | theme/src/client/composables/contributors.ts:128 | `split('/')` always gives at least one piece, and no piece contains the separator |
| Text.JoinSplit | theme/src/client/composables/contributors.ts:128 | joining the pieces of a split with the separator gives back the string |
| Text.SplitJoin | theme/src/client/composables/contributors.ts:128 | splitting a join of separator-free pieces gives back the pieces |
| Text.NonEmpty | theme/src/client/composables/contributors.ts:128 | `filter(Boolean)` keeps exactly the non-empty pieces |
| Text.NonEmptyAppend | theme/src/client/composables/contributors.ts:128 | `filter(Boolean)` over a concatenation is the concatenation of the filtered parts, so the pieces keep their order |
| Text.NonEmptySingle | theme/src/client/composables/contributors.ts:128 | a single piece is kept exactly when it is non-empty |
| Text.PathSegments | theme/src/client/composables/contributors.ts:128 | path segments are non-empty and contain no `/` |
| Text.PathSegmentsOfAbsolutePath | theme/src/client/composables/contributors.ts:128 | the segments of `/s1/s2/...` are `s1, s2, ...` |
| Text.PathSegmentsOfJoin | theme/src/client/composables/contributors.ts:128 | the segments of any `/`-joined path are its non-empty pieces, in order |
| Text.PathSegmentsTrailingSlash | theme/src/client/composables/contributors.ts:128 | a trailing `/` adds no segment: the segments of `/s1/.../sn/` are `s1, ..., sn` |
| Text.PathSegmentsDoubleSlash | theme/src/client/composables/contributors.ts:128 | a doubled leading `/` adds no segment |
| Text.NatToString | theme/src/client/composables/contributors.ts:98 | the rendered index is a non-empty string of decimal digits |
| Text.DecimalRoundTrip | theme/src/client/composables/contributors.ts:98 | reading the rendered index back gives the index |
| Text.NatToStringInjective | theme/src/client/composables/contributors.ts:98 | different indexes render differently |
| Records.FirstTruthy | theme/src/client/composables/contributors.ts:104-119 | the first non-empty candidate, or nothing exactly when every candidate is missing or empty |
| Records.FirstTruthyAt | theme/src/client/composables/contributors.ts:104-119 | the candidate at the first truthy position is the one chosen |
| Records.FirstTruthyAppend | theme/src/client/composables/contributors.ts:71-75 | a later url or avatar matters only when no earlier one is non-empty |
| Records.FirstPresentAppend | theme/src/client/composables/contributors.ts:66 | with `{...normalized, ...existing}`, a later property matters only when no earlier record has it |
| Usernames.UsernameFromUrlParts | theme/src/client/composables/contributors.ts:122-148 | a username exactly when the URL parses, its host ends in `github.com` and the path has a segment; in that case it is the sole segment, `<second>[bot]` under `apps`, or the last segment |
| Usernames.UsernameFromUrl | theme/src/client/composables/contributors.ts:122-148 | a URL the parser rejects yields nothing; any username is non-empty |
| Usernames.ProfileUrl | theme/src/client/composables/contributors.ts:134-136 | `https://github.com/<name>` yields `<name>` |
| Usernames.ProfileUrlTrailingSlash | theme/src/client/composables/contributors.ts:128-136 | `https://github.com/<name>/` also yields `<name>` |
| Usernames.AppUrl | theme/src/client/composables/contributors.ts:138-140 | `https://github.com/apps/<app>` yields `<app>[bot]` |
| Usernames.NestedUrl | theme/src/client/composables/contributors.ts:142-143 | with two or more segments and no leading `apps`, the last segment is the username |
| Usernames.ForeignHostUrl | theme/src/client/composables/contributors.ts:125-126 | a host not ending in `github.com` yields nothing |
| Usernames.SuffixHostAccepted | theme/src/client/composables/contributors.ts:125 | `notgithub.com` passes the host test |
| Usernames.HandleOf | theme/src/client/composables/contributors.ts:155-160 | the handle is the text after the first `+` of the local part, or the whole local part when it has no `+` |
| Usernames.HandleAfterPlus | theme/src/client/composables/contributors.ts:156-158 | with no `+` in `<id>`, the handle of `<id>+<handle>` is `<handle>` |
| Usernames.UsernameFromEmail | theme/src/client/composables/contributors.ts:150-161 | a result exactly when the address matches the no-reply pattern; the result is never longer than the text before the suffix |
| Usernames.NoReplySuffixIsLower | theme/src/client/composables/contributors.ts:151 | the suffix of the pattern is in lower case, so comparing the lowered tail with it is the case-insensitive match |
| Usernames.MatchOf | theme/src/client/composables/contributors.ts:151 | a non-empty local part without line terminators, followed by the suffix in any ASCII letter case, matches, and its local part is recovered |
| Usernames.NoReplySplit | theme/src/client/composables/contributors.ts:151 | conversely, every matching address is such a local part followed by such a suffix |
| Usernames.EmailOfLocal | theme/src/client/composables/contributors.ts:151-160 | every address made of a non-empty local part without line terminators and the suffix in any ASCII letter case matches and yields the handle of its local part; with NoReplySplit this gives the result for every matching address |
| Usernames.EmailOfLowerSuffix | theme/src/client/composables/contributors.ts:151-160 | the same for the suffix written in lower case |
| Usernames.EmailWithId | theme/src/client/composables/contributors.ts:156-158 | when `<id>` has no `+` and neither `<id>` nor `<handle>` has a line terminator, `<id>+<handle>@users.noreply.github.com` yields `<handle>` |
| Usernames.EmailWithoutId | theme/src/client/composables/contributors.ts:160 | when `<handle>` is non-empty and has no `+` and no line terminator, `<handle>@users.noreply.github.com` yields `<handle>` |
| Usernames.EmptyHandleEmail | theme/src/client/composables/contributors.ts:156-158 | when `<id>` has no `+` and no line terminator, `<id>+@users.noreply.github.com` matches with an empty handle |
| Usernames.NoReplyEndsWithSuffix | theme/src/client/composables/contributors.ts:151 | a matching address, lowered, ends in the no-reply suffix |
| Usernames.OtherEmail | theme/src/client/composables/contributors.ts:151-153 | an address that does not end in the suffix in any letter case yields nothing |
| Usernames.Candidates | theme/src/client/composables/contributors.ts:104-117 | three candidates: the explicit username; a URL result only when the url is non-empty; an email result only when the email is non-empty and matches the pattern |
| Usernames.ResolveUsername | theme/src/client/composables/contributors.ts:101-120 | the first non-empty value among the explicit username, the URL's username and the email's handle; never the empty string |
| Usernames.NoTruthyCandidate | theme/src/client/composables/contributors.ts:113-119 | empty or missing results fall through, so an empty email handle leaves the record without a username |
| Keys.ResolveKey | theme/src/client/composables/contributors.ts:91-99 | a key is never empty and holds no upper-case letter |
| Keys.UsernameKeyIgnoresCase | theme/src/client/composables/contributors.ts:92-93 | usernames that differ only in case give the same key, whatever the other properties |
| Keys.SignalKeyIgnoresPosition | theme/src/client/composables/contributors.ts:92-97 | a record with a username, email or name has a key that does not depend on its position |
| Keys.AnonymousKeysDistinct | theme/src/client/composables/contributors.ts:98 | signal-less records at different positions never share a key |
| Keys.AnonymousKeyMeetsName | theme/src/client/composables/contributors.ts:96-98 | a record named `anonymous-<n>` shares the key of the signal-less record at position `n` |
| Merge.MergePrecedence | theme/src/client/composables/contributors.ts:66-83 | in a merge, the stored email and username win; the name becomes a non-empty username; url and avatar come from the incoming record only when the stored one is empty; counts add up when either is present |
| Merge.Normalize | theme/src/client/composables/contributors.ts:52-55 | the copy takes the resolved username as its name when there is one, is the record itself otherwise, and differs from the record in nothing but the name |
| Merge.MergeRecords | theme/src/client/composables/contributors.ts:66-83 | the merged record is named after a non-empty resolved username |
| Merge.MergeInto | theme/src/client/composables/contributors.ts:66-83 | the step-by-step fix-ups after the spread give the merge of the two records |
| Merge.Fold | theme/src/client/composables/contributors.ts:47-89 | the map never has more keys than there are records, and lists each key once |
| Merge.StepFrame | theme/src/client/composables/contributors.ts:50-86 | one iteration puts the record's key in the map, appends it to the insertion order only when it is new, leaves every other key's entry alone, and keeps each key listed once |
| Merge.Values | theme/src/client/composables/contributors.ts:88 | `Array.from(map.values())`: one record per key, in key insertion order, and every stored record is listed |
| Merge.FirstOccurrences | theme/src/client/composables/contributors.ts:59-62 | the distinct keys, each listed once, with exactly the keys of the input |
| Merge.FirstIndexUnique | theme/src/client/composables/contributors.ts:59-62 | a position with no earlier occurrence is the first occurrence |
| Merge.FirstOccurrencesOrder | theme/src/client/composables/contributors.ts:85-88 | the keys are listed in increasing order of their first occurrence in the input |
| Merge.FoldKeys | theme/src/client/composables/contributors.ts:58-62 | the map's keys are the first occurrences of the records' keys; a later merge never moves a key |
| Merge.FoldNonEmpty | theme/src/client/composables/contributors.ts:50-62 | a non-empty input gives at least one record |
| Merge.GroupMembers | theme/src/client/composables/contributors.ts:58-59 | a record is in a key's group exactly when its key is that key, and a group is non-empty exactly when the key occurs |
| Merge.CommitsAppend | theme/src/client/composables/contributors.ts:77-83 | a group has a count once any member has one, and its total grows by the new record's count, a missing count adding 0 |
| Merge.CommitSumWithoutCounts | theme/src/client/composables/contributors.ts:79-83 | a group where no record has a count totals 0 |
| Merge.ExpectedSingle | theme/src/client/composables/contributors.ts:52-63 | a key seen once stores the record renamed to its username |
| Merge.ExpectedAppend | theme/src/client/composables/contributors.ts:59-85 | merging the next record of a key into the stored merge gives the merge of the longer group |
| Merge.FoldStoreStep | theme/src/client/composables/contributors.ts:50-86 | one pass iteration keeps every stored record equal to the merge of its key's records |
| Merge.FoldStore | theme/src/client/composables/contributors.ts:47-89 | every stored record is the merge of exactly the records with its key |
| Merge.NormalizeContributors | theme/src/client/composables/contributors.ts:47-89 | the loop's output is the map's values in key order, at most one per input record, each the merge of its key's records |
| Merge.RunNew | theme/src/client/composables/contributors.ts:50-62 | with no username, a record whose key is new is stored unchanged and its key appended |
| Merge.MergeSelf | theme/src/client/composables/contributors.ts:66-83 | with no username, a record without a commit count merged with a copy of itself is itself |
| Merge.RunSame | theme/src/client/composables/contributors.ts:59-85 | with no username, a copy of a stored record that has no commit count changes nothing |
| Merge.RunTwice | theme/src/client/composables/contributors.ts:47-89 | with a resolver that finds no username, over `x, x, a, e` where `x` has no commit count, `x` and `a` have distinct keys, and `e` is keyed apart from both at position 3 but with `a` at position 2: the first run outputs `x, a, e` and a second run over that output keeps two records |
| Merge.NotIdempotentWithoutUsernames | theme/src/client/composables/contributors.ts:47-98 | with a resolver that finds no username, over records named `n, n, anonymous-2, ""` (with `n` a non-empty lower-case name other than `anonymous-2` and `anonymous-3`) the first run outputs exactly those three names and a second run over that output keeps only two records |
| Merge.NoSignalNoUsername | theme/src/client/composables/contributors.ts:101-120 | a record with no username, url or email resolves to no username |
| Merge.FoldSame | theme/src/client/composables/contributors.ts:47-89 | the pass depends on the resolver only through its results on the input records |
| Merge.FoldNamed | theme/src/client/composables/contributors.ts:47-120 | over records that carry only a name, the theme's resolver gives the same map as a resolver that finds no username |
| Merge.NotIdempotent | theme/src/client/composables/contributors.ts:47-120 | with the theme's own resolver, for any URL parser, over records that carry only the names `n, n, anonymous-2, ""` (with `n` a non-empty lower-case name other than `anonymous-2` and `anonymous-3`), the first run outputs exactly `n, anonymous-2, ""` and a second run over that output keeps only two records |
| Display.ThemeTruthy | theme/src/client/composables/contributors.ts:34 | `!!theme.contributors` is false exactly for a missing setting and the flag `false`; an options object is always truthy |
| Display.ContributorsEnabled | theme/src/client/composables/contributors.ts:33-37 | the list is off exactly when the page says `false`, or when the page says nothing and the theme setting is missing or `false` |
| Display.DisplayMode | theme/src/client/composables/contributors.ts:26-31 | the options object's non-empty mode, `"inline"` in every other case |
| Display.UseContributors | theme/src/client/composables/contributors.ts:20-45 | the mode; an empty list when the list is off, otherwise the grouped list; `hasContributors` holds exactly when the list is on and the input is non-empty |

## Left out

- Vue reactivity (`computed`, `useData`, `useThemeData`): each computed value is modelled as a plain function or method of its inputs.
- Loading contributors from git (`@vuepress/plugin-git`): the input list is a parameter.
- The WHATWG URL parser behind `new URL`: it is a parameter that maps a string to a host name and path, or rejects it. The `try`/`catch` is modelled as that rejection.
- Unicode case mapping: `toLowerCase` and the `/i` flag are modelled on ASCII letters only. Other characters are left unchanged.
- Non-number `commits` values and floating-point addition: a count is an unbounded integer or missing.
- Properties set explicitly to `undefined`: the object spread treats a present `undefined` property as set. The model treats a property as either present with a value or missing.
- A page flag that is not a boolean: it is modelled as present `true`, present `false` or missing.
- Merge.NormalizeContributors: it takes the username resolver as a parameter. The theme passes `Merge.GitHubResolver`, which `Display.UseContributors` supplies.
