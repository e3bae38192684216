/**
 * The page-level part of the contributors composable: whether the list is
 * shown at all, in which layout, and the list itself.
 */
module Display {
  import opened Wrappers
  import opened Records
  import opened Usernames
  import opened Merge

  /**
   * The theme's `contributors` setting: absent, a plain flag, or an options
   * object whose `mode` may be missing.
   */
  datatype ThemeSetting = Unset | Flag(enabled: bool) | Options(mode: Option<string>)

  const INLINE_MODE := "inline"

  /** `!!theme.contributors`: an options object is always truthy. */
  predicate ThemeTruthy(theme: ThemeSetting): (b: bool)
    ensures b <==> theme != Unset && theme != Flag(false)
  {
    match theme
    case Unset => false
    case Flag(b) => b
    case Options(_) => true
  }

  /**
   * `frontmatter.contributors ?? !!theme.contributors`, compared with `false`:
   * the page's own flag decides when it is set, the theme's setting otherwise.
   */
  function ContributorsEnabled(page: Option<bool>, theme: ThemeSetting): (r: bool)
    ensures !r <==> page == Some(false) || (page.None? && (theme.Unset? || theme == Flag(false)))
  {
    var config := if page.Some? then page.value else ThemeTruthy(theme);
    config != false
  }

  /** The layout: the options object's mode when it is non-empty, `"inline"` in every other case. */
  function DisplayMode(theme: ThemeSetting): (r: string)
    ensures r != ""
    ensures theme.Options? && Truthy(theme.mode) ==> r == theme.mode.value
    ensures !(theme.Options? && Truthy(theme.mode)) ==> r == INLINE_MODE
  {
    if theme.Options? then Or(theme.mode, Some(INLINE_MODE)).value
    else INLINE_MODE
  }

  /**
   * `useContributors`: the layout, the merged list (empty when the list is
   * turned off) and whether there is anything to show. `list` is the page's
   * contributors as the git plugin reports them, `parse` the URL parser.
   */
  method UseContributors(parse: UrlParser, list: seq<Contributor>, page: Option<bool>, theme: ThemeSetting)
    returns (mode: string, contributors: seq<Contributor>, hasContributors: bool)
    ensures mode == DisplayMode(theme)
    ensures !ContributorsEnabled(page, theme) ==> contributors == []
    ensures ContributorsEnabled(page, theme) ==> contributors == Values(Fold(GitHubResolver(parse), list))
    ensures |contributors| <= |list|
    ensures hasContributors <==> contributors != []
    ensures hasContributors <==> ContributorsEnabled(page, theme) && list != []
  {
    mode := DisplayMode(theme);
    if !ContributorsEnabled(page, theme) {
      contributors := [];
    } else {
      contributors := NormalizeContributors(GitHubResolver(parse), list);
      if list != [] {
        FoldNonEmpty(GitHubResolver(parse), list);
      }
    }
    hasContributors := |contributors| > 0;
  }
}
