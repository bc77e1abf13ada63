/**
 * The version-keyed ordering of download URLs done by `Navigator`:
 * `_urls_to_url_version` gives every URL a version string taken from it by a
 * regular expression, and `inverted_sort_dict` re-emits that URL to version
 * map ordered by version, newest first by default.
 *
 * The regular-expression engine and the version comparison of
 * `cmp_version.VersionString` are not part of this model: the search is a
 * function from a pattern and a URL to the text of the first group of the
 * first match (None when nothing matches), and the comparison is any total
 * preorder on version strings.
 */
module Versions {
  import opened Base
  import opened OrderedDicts
  import opened StableSort

  /** The version given to a URL that the pattern does not match. */
  const UNKNOWN_VERSION := "0.0.0"

  /** `Navigator.DEFAULT_VERSION_REGEX` */
  const DEFAULT_VERSION_REGEX := "([0-9]+\\.(?:[0-9][A-Za-z0-9_-]*)(?:\\.[0-9][A-Za-z0-9_-]*)*)"

  /** The text of the warning printed for a URL without a version. */
  function Warning(targetUrl: string): string {
    "WARNING: couldn't match version for url: " + targetUrl
  }

  /** The pattern used: the given one, or the default when none or an empty one is given. */
  function EffectiveRegex(versionRegex: Option<string>): (r: string)
    ensures r != ""
    ensures versionRegex.Some? && versionRegex.value != "" ==> r == versionRegex.value
    ensures versionRegex.None? || versionRegex.value == "" ==> r == DEFAULT_VERSION_REGEX
  {
    if versionRegex.None? || versionRegex.value == "" then DEFAULT_VERSION_REGEX else versionRegex.value
  }

  /**
   * Once chosen, the pattern stays chosen: the loop stores the pattern it
   * used back into `version_regex`, and testing `if not version_regex`
   * again on a later URL picks that same pattern, never the default over a
   * given one.
   */
  lemma {:induction false} RegexChoiceIsStable(versionRegex: Option<string>)
    ensures EffectiveRegex(Some(EffectiveRegex(versionRegex))) == EffectiveRegex(versionRegex)
  {
  }

  /** The version of one URL: the first group of the match, or the sentinel. */
  function VersionOf(search: (string, string) -> Option<string>, regex: string, targetUrl: string): string {
    match search(regex, targetUrl)
    case Some(group) => group
    case None => UNKNOWN_VERSION
  }

  /** The warnings, in order, for the URLs of `targetUrls` that have no version (one per occurrence). */
  function Warnings(search: (string, string) -> Option<string>, regex: string, targetUrls: seq<string>): seq<string>
    decreases |targetUrls|
  {
    if targetUrls == [] then []
    else
      var last := targetUrls[|targetUrls| - 1];
      Warnings(search, regex, targetUrls[..|targetUrls| - 1])
        + (if search(regex, last).None? then [Warning(last)] else [])
  }

  /**
   * `_urls_to_url_version(target_urls, version_regex)`: a dictionary with
   * one entry per distinct URL, in order of first occurrence, mapping it to
   * its version; every URL without a version is still there, with the
   * sentinel, and has produced a warning.
   */
  method UrlsToUrlVersion(targetUrls: seq<string>, versionRegex: Option<string>,
                          search: (string, string) -> Option<string>)
    returns (results: Items<string, string>, warnings: seq<string>)
    ensures DistinctKeys(results)
    ensures Keys(results) == Dedup(targetUrls)
    ensures forall i :: 0 <= i < |results| ==>
      results[i].1 == VersionOf(search, EffectiveRegex(versionRegex), results[i].0)
    ensures forall u :: (Get(results, u) ==
      if u in targetUrls then Some(VersionOf(search, EffectiveRegex(versionRegex), u)) else None)
    ensures warnings == Warnings(search, EffectiveRegex(versionRegex), targetUrls)
  {
    ghost var regexUsed := EffectiveRegex(versionRegex);
    var currentRegex := versionRegex;
    results := [];
    warnings := [];
    var i := 0;
    while i < |targetUrls|
      invariant 0 <= i <= |targetUrls|
      invariant EffectiveRegex(currentRegex) == regexUsed
      invariant IsDictOf(results, targetUrls[..i], VersionsBy(search, regexUsed))
      invariant warnings == Warnings(search, regexUsed, targetUrls[..i])
    {
      var targetUrl := targetUrls[i];
      if currentRegex.None? || currentRegex.value == "" {
        currentRegex := Some(DEFAULT_VERSION_REGEX);
      }
      var regex := currentRegex.value;
      var found := search(regex, targetUrl);
      UrlStep(results, warnings, search, regex, targetUrls, i);
      var version;
      if found.Some? {
        version := found.value;
      } else {
        warnings := warnings + [Warning(targetUrl)];
        version := UNKNOWN_VERSION;
      }
      results := Assign(results, targetUrl, version);
      i := i + 1;
    }
    assert targetUrls[..i] == targetUrls;
    IsDictOfGet(results, targetUrls, VersionsBy(search, regexUsed));
  }

  /** `VersionOf` for one search function and pattern, as a map from URL to version. */
  function VersionsBy(search: (string, string) -> Option<string>, regex: string): string -> string {
    u => VersionOf(search, regex, u)
  }

  /** One iteration of the loop above: both the dictionary and the warnings extend by the URL at `i`. */
  lemma UrlStep(results: Items<string, string>, warnings: seq<string>, search: (string, string) -> Option<string>,
                regex: string, targetUrls: seq<string>, i: nat)
    requires i < |targetUrls|
    requires IsDictOf(results, targetUrls[..i], VersionsBy(search, regex))
    requires warnings == Warnings(search, regex, targetUrls[..i])
    ensures IsDictOf(Assign(results, targetUrls[i], VersionOf(search, regex, targetUrls[i])),
                     targetUrls[..i + 1], VersionsBy(search, regex))
    ensures Warnings(search, regex, targetUrls[..i + 1])
         == warnings + if search(regex, targetUrls[i]).None? then [Warning(targetUrls[i])] else []
  {
    assert targetUrls[..i + 1][..i] == targetUrls[..i];
    AssignNext(results, targetUrls[..i], targetUrls[i], VersionsBy(search, regex));
    assert targetUrls[..i + 1] == targetUrls[..i] + [targetUrls[i]];
  }

  /** The key of an item `(url, version)` of the dictionary. */
  function Version(item: (string, string)): string {
    item.1
  }

  /** The key of an item `(version, url)` of the inverted list. */
  function InvertedVersion(item: (string, string)): string {
    item.0
  }

  function Url(item: (string, string)): string {
    item.0
  }

  /** `[(value, key) for key, value in d.items()]`, and back. */
  function Swap(items: Items<string, string>): (r: Items<string, string>)
    ensures |r| == |items|
    ensures forall i :: 0 <= i < |items| ==> r[i] == (items[i].1, items[i].0)
  {
    seq(|items|, i requires 0 <= i < |items| => (items[i].1, items[i].0))
  }

  lemma {:induction false} InsertSwap(x: (string, string), s: Items<string, string>, le: (string, string) -> bool)
    ensures Insert((x.1, x.0), Swap(s), InvertedVersion, le) == Swap(Insert(x, s, Version, le))
  {
    if s != [] && le(Version(s[0]), Version(x)) {
      assert Swap(s)[1..] == Swap(s[1..]);
      InsertSwap(x, s[1..], le);
    }
  }

  /** Sorting the inverted pairs by version is sorting the items by version, then inverting them. */
  lemma {:induction false} SortSwap(s: Items<string, string>, le: (string, string) -> bool)
    ensures Sort(Swap(s), InvertedVersion, le) == Swap(Sort(s, Version, le))
    decreases |s|
  {
    if s != [] {
      var init := s[..|s| - 1];
      assert Swap(s)[..|s| - 1] == Swap(init);
      SortSwap(init, le);
      InsertSwap(s[|s| - 1], Sort(init, Version, le), le);
    }
  }

  /**
   * `inverted_sort_dict(dict_to_sort, reverse_sorted)`: the same url to
   * version items, none added or lost and still keyed by URL (two URLs
   * with one version both stay), ordered by version: newest first when
   * `reverseSorted`, oldest first otherwise, and URLs of equivalent
   * versions in their original order.
   */
  method InvertedSortDict(dictToSort: Items<string, string>, versionLe: (string, string) -> bool,
                          reverseSorted: bool)
    returns (result: Items<string, string>)
    requires DistinctKeys(dictToSort)
    requires TotalPreorder(versionLe)
    ensures multiset(result) == multiset(dictToSort)
    ensures DistinctKeys(result)
    ensures reverseSorted ==> forall i, j :: 0 <= i < j < |result| ==> versionLe(result[j].1, result[i].1)
    ensures !reverseSorted ==> forall i, j :: 0 <= i < j < |result| ==> versionLe(result[i].1, result[j].1)
    ensures forall v :: SameKey(result, Version, versionLe, v) == SameKey(dictToSort, Version, versionLe, v)
  {
    var order := if reverseSorted then Flip(versionLe) else versionLe;
    var inverted := Swap(dictToSort);
    inverted := Sort(inverted, InvertedVersion, order);
    ghost var sorted := Sort(dictToSort, Version, order);
    SortSwap(dictToSort, order);
    InvertedSortSpec(dictToSort, versionLe, reverseSorted);

    result := [];
    var i := 0;
    while i < |inverted|
      invariant 0 <= i <= |inverted|
      invariant result == sorted[..i]
    {
      var (value, key) := inverted[i];
      RefillStep(sorted, i);
      result := Assign(result, key, value);
      i := i + 1;
    }
    assert result == sorted;
  }

  /** What the stable sort of the items by version gives, in either direction. */
  lemma InvertedSortSpec(dictToSort: Items<string, string>, versionLe: (string, string) -> bool, reverseSorted: bool)
    requires DistinctKeys(dictToSort)
    requires TotalPreorder(versionLe)
    ensures var sorted := Sort(dictToSort, Version, if reverseSorted then Flip(versionLe) else versionLe);
      && multiset(sorted) == multiset(dictToSort)
      && DistinctKeys(sorted)
      && (reverseSorted ==> forall i, j :: 0 <= i < j < |sorted| ==> versionLe(sorted[j].1, sorted[i].1))
      && (!reverseSorted ==> forall i, j :: 0 <= i < j < |sorted| ==> versionLe(sorted[i].1, sorted[j].1))
      && forall v :: SameKey(sorted, Version, versionLe, v) == SameKey(dictToSort, Version, versionLe, v)
  {
    var order := if reverseSorted then Flip(versionLe) else versionLe;
    var sorted := Sort(dictToSort, Version, order);
    FlipIsTotalPreorder(versionLe);
    SortCorrect(dictToSort, Version, order);
    SortKeepsDistinct(dictToSort, Version, order, Url);
    forall v ensures SameKey(sorted, Version, versionLe, v) == SameKey(dictToSort, Version, versionLe, v) {
      SameKeyFlip(sorted, Version, versionLe, v);
      SameKeyFlip(dictToSort, Version, versionLe, v);
    }
  }

  /** Refilling a dictionary from items with distinct keys, one `d[key] = value` at a time, appends each item. */
  lemma RefillStep(items: Items<string, string>, i: nat)
    requires DistinctKeys(items) && i < |items|
    ensures Assign(items[..i], items[i].0, items[i].1) == items[..i + 1]
  {
    var done := items[..i];
    forall j | 0 <= j < |done| ensures Keys(done)[j] != items[i].0 {
      assert done[j] == items[j];
    }
    AssignSpec(done, items[i].0, items[i].1);
    assert items[..i + 1] == done + [items[i]];
  }

  /**
   * The order `InvertedSortDict` promises leaves no freedom: two lists of
   * items, each ordered by version in the same direction and each keeping
   * the input order of equivalent versions, are the same list. So any
   * stable sort, whatever its algorithm, yields this result.
   */
  lemma VersionOrderIsDetermined(dictToSort: Items<string, string>, a: Items<string, string>,
                                 b: Items<string, string>, versionLe: (string, string) -> bool,
                                 reverseSorted: bool)
    requires TotalPreorder(versionLe)
    requires reverseSorted ==> forall i, j :: 0 <= i < j < |a| ==> versionLe(a[j].1, a[i].1)
    requires reverseSorted ==> forall i, j :: 0 <= i < j < |b| ==> versionLe(b[j].1, b[i].1)
    requires !reverseSorted ==> forall i, j :: 0 <= i < j < |a| ==> versionLe(a[i].1, a[j].1)
    requires !reverseSorted ==> forall i, j :: 0 <= i < j < |b| ==> versionLe(b[i].1, b[j].1)
    requires forall v :: SameKey(a, Version, versionLe, v) == SameKey(dictToSort, Version, versionLe, v)
    requires forall v :: SameKey(b, Version, versionLe, v) == SameKey(dictToSort, Version, versionLe, v)
    ensures a == b
  {
    var order := if reverseSorted then Flip(versionLe) else versionLe;
    FlipIsTotalPreorder(versionLe);
    forall v ensures SameKey(a, Version, order, v) == SameKey(b, Version, order, v) {
      SameKeyFlip(a, Version, versionLe, v);
      SameKeyFlip(b, Version, versionLe, v);
    }
    StableSortIsUnique(a, b, Version, order);
  }
}
