# checksum_url, modelled in Dafny

`tools/checksum_url.py` computes a checksum for each of a list of download
URLs. Optionally it first logs in to a web site through an HTML form. It
then fetches every URL, with HTTP Basic or Digest credentials if it has them,
and streams each body into a `hashlib` digest. Each hash goes to the output
plugin chosen by `--output` (`out.display_hash`). A failed download is
reported on an aligned `report_error` line, and the tool then either
continues or, with `--fail-early`, exits with status 1; any other exception
ends the program without a line. Navigators
give every URL a version taken from the URL by a regular expression, and
order URLs newest version first.

This project models that logic against abstract collaborators, and proves
what the code promises about it:

- the server is a function from a request to a reply;
- the web site behind a browser is a function from the browser's actions so far to its reply;
- a digest is the list of bytes fed to it;
- the regular-expression search is a function from a pattern and a URL to the first group of the match;
- the version comparison is any total preorder.

| file | module | what it holds |
|---|---|---|
| base.dfy | Base | bytes, `Option`, `Result`, the exceptions the tool tells apart |
| text.dfy | Text | the Python string operations used: `lower`, `ljust`, `join`, `split`, `str(int)`, `int(str)`, UTF-8 encoding |
| camel_case.dfy | CamelCase | `exception_to_message` |
| chunking.dfy | Chunking | `chunks` |
| display.dfy | Display | `display_text`, `get_max_string_length`, `display_hash`, `report_error` |
| ordered_dicts.dfy | OrderedDicts | insertion-ordered dictionaries as lists of items |
| stable_sort.dfy | StableSort | `list.sort(key=..., reverse=...)` as the unique stable sort under a total preorder |
| versions.dfy | Versions | `Navigator._urls_to_url_version`, `Navigator.inverted_sort_dict` |
| transfer.dfy | Transfer | `transfer_page` |
| digest_reader.dfy | DigestReader | `get_hash_from_url` |
| login.dfy | Login | `Navigator._do_login`, `login_with_form`, `_re_login_with_form` |
| orchestration.dfy | Orchestration | navigator selection and the per-URL loop of the main program |

The model follows the code in these places:

- `inverted_sort_dict` keys its result by URL, so two URLs with the same version both stay. Its result does not hold one URL per version.
- Python's `reverse=True` keeps equal keys in their input order. So "sort descending" and "sort ascending, then reverse" agree only when no two versions are equivalent (`StableSort.DescendingIsReversedAscending`). `StableSort.ReverseSortKeepsTies` shows two tied items on which they differ.
- Under `--fail-early` a failed download exits with status 1 at once. `exit_if_asked` asks nothing.
- Only errors in the branch that reads a body with a `content-length` header become `DownloadFailedException`. Errors of the transfer, and errors while reading a body without that header, propagate unchanged. In the main loop they end the program.
- The exception for a status other than 200 reads `download failed [response was N]`.
- The warning for several matching navigators ends with `args.navigator[0]`, which is the first character of the requested name. An empty name would raise `IndexError` there.
- In debug mode the digest is fed the module-level `url` (the main loop's variable), not the `target_url` argument. `GetHashFromUrl` takes it as the separate parameter `moduleUrl`.
- The fourth value of `--form` (the submit field) is never used (`Login.SubmitFieldUnused`).
- `_re_login_with_form` returns its new browser and does not keep it.
- Before any `login_with_form`, the stored credentials are `None` and cannot be unpacked, so a re-login raises `TypeError`.

## Model

| member | source | states |
|---|---|---|
| CamelCase.CamelWordsCutAtBoundaries | tools/checksum_url.py:111-115 | the words of a class name are cut exactly where the pattern's lookarounds match: before an upper-case letter after a lower-case one, and before the last capital of a run when a lower-case letter follows |
| CamelCase.CamelWordsCover | tools/checksum_url.py:111-115 | the matches are non-empty and together spell out the class name |
| CamelCase.MessageIsLoweredName | tools/checksum_url.py:111-115 | with its spaces removed, the message is the lower-cased class name |
| CamelCase.HttpErrorExample | tools/checksum_url.py:111-115 | `HTTPError` becomes `http error` |
| Chunking.ChunksOutcome | tools/checksum_url.py:254-257 | a zero size raises `ValueError`, a negative one yields nothing, a positive one yields pieces that concatenate to the list |
| Chunking.ChunksReassemble | tools/checksum_url.py:254-257 | the pieces concatenate to the list |
| Chunking.ChunksSizes | tools/checksum_url.py:254-257 | every piece has `n` elements except the last, which has between 1 and `n` |
| Chunking.ChunksCount | tools/checksum_url.py:254-257 | the number of pieces `k` satisfies `(k - 1) * n < len(lst) <= k * n` |
| Chunking.ChunkIsSlice | tools/checksum_url.py:254-257 | piece `k` is `lst[k*n : k*n + n]`, clipped at the end |
| Display.MaxStringLength | tools/checksum_url.py:446-454 | the result is at least the length of every URL and equals the length of one of them; 0 for no URLs |
| Display.DisplayText | tools/checksum_url.py:131-152 | five lines: the header centred in a rule with at least three dashes on each side, a blank line, the text, a blank line, and a closing rule of the same width; every line of the text fits within the rule, and the rule is no wider than needed |
| Display.ColumnLayout | tools/checksum_url.py:234-251 | a result line puts the URL, never cut, right after the index field, and what follows it one space after the padded URL field; the URL is at column 11 for every index below 1000 and further right from 1000 on |
| Display.AlignedResultLines | tools/checksum_url.py:234-251 | for an index below 1000, the lines of the module-level `display_hash` and of `report_error` share the layout; when the URL fits its field, the hash or message starts at the same column whatever the URL |
| Text.SplitJoin | tools/checksum_url.py:134 | the lines of `text.split('\n')` join back to the text and hold no newline |
| Versions.RegexChoiceIsStable | tools/checksum_url.py:387-389 | the pattern stored back into `version_regex` is a fixed point of the choice, so re-testing `if not version_regex` on later URLs keeps the first URL's pattern |
| Versions.UrlsToUrlVersion | tools/checksum_url.py:383-399 | one entry per distinct URL, in order of first occurrence; a matched URL maps to the match's first group, an unmatched one to `0.0.0` and is still present; one warning per unmatched occurrence, in order; no key that is not an input URL |
| Versions.InvertedSortDict | tools/checksum_url.py:366-376 | exactly the input items, none added or lost, keys still distinct; non-increasing by version when `reverse_sorted`, non-decreasing otherwise; items of equivalent versions keep their input order |
| Versions.VersionOrderIsDetermined | tools/checksum_url.py:366-376 | those promises fix the result completely: any stable sort gives the same dictionary |
| Versions.SortSwap | tools/checksum_url.py:368-369 | sorting the inverted `(version, url)` pairs by their first element is sorting the items by version, then inverting |
| StableSort.SortCorrect | tools/checksum_url.py:369 | the sort is ordered, a permutation, and stable |
| StableSort.StableSortIsUnique | tools/checksum_url.py:369 | two ordered lists that keep every group of equivalent keys in the same order are equal |
| StableSort.SortKeepsDistinct | tools/checksum_url.py:368-374 | sorting never makes two items share a URL, so the refilled dictionary loses nothing |
| StableSort.DescendingIsReversedAscending | tools/checksum_url.py:369 | with pairwise inequivalent keys, the reverse sort is the ascending sort reversed |
| StableSort.ReverseSortKeepsTies | tools/checksum_url.py:369 | with two equal keys, the reverse sort keeps their input order, which the reversed ascending sort does not |
| OrderedDicts.AssignSpec | tools/checksum_url.py:374 | `d[k] = v` keeps keys distinct, appends a new key last, keeps a present key in place, and changes no other key |
| Transfer.TransferPage | tools/checksum_url.py:172-185 | at most two requests, all for the URL with redirects on, a 10-second timeout and streaming; the reply is the one to the last request; anonymous means exactly one unauthenticated GET; with credentials a Basic GET, then a Digest GET exactly when the Basic one was answered with a status other than 200 |
| DigestReader.GetHashFromUrl | tools/checksum_url.py:188-230 | an unknown algorithm raises `AttributeError`; transfer errors propagate; a status other than 200 raises `DownloadFailedException` with the status; without `content-length` a read error propagates unchanged, otherwise parse and read errors become `DownloadFailedException` naming the URL; whenever the body is read, the digester is fed exactly the body, and the progress bar, shown only when verbose, counts every byte; debug feeds the UTF-8 of the module-level URL |
| DigestReader.StatusInMessage | tools/checksum_url.py:204-205 | the status can be read back from the message |
| DigestReader.Digester.Update | tools/checksum_url.py:207 | an update appends its data to what the digester was fed |
| DigestReader.ProgressBar.Update | tools/checksum_url.py:219 | an update adds its count to the bar |
| Login.Browser.Perform | tools/checksum_url.py:321 | an action is appended to the browser's history and answered by the site |
| Login.Navigator.constructor | tools/checksum_url.py:300-306 | a navigator starts with a fresh browser on its session and nothing stored |
| Login.Navigator.DoLogin | tools/checksum_url.py:316-345 | the browser performs exactly the actions of the reference run and the outcome is its outcome |
| Login.LoginSucceeds | tools/checksum_url.py:316-345 | a login succeeds exactly when the credentials are there, the page opens with 200, and, with a form, selecting, filling and submitting go through and the submission answers 200; a successful login performs the whole script |
| Login.LoginFailures | tools/checksum_url.py:326-343 | a page that does not open with 200 stops there with `couldn't open the password page`; a submission answered otherwise fails with `bad response from password page` and the page text |
| Login.SubmitFieldUnused | tools/checksum_url.py:318-319 | the fourth form value changes nothing |
| Login.Navigator.LoginWithForm | tools/checksum_url.py:347-355 | target, credentials and form are stored whatever the outcome, and the login runs on the navigator's own browser |
| Login.Navigator.ReLoginWithForm | tools/checksum_url.py:357-363 | the stored login is replayed on a new browser of the same session, which is returned; the navigator is unchanged |
| Orchestration.SelectNavigator | tools/checksum_url.py:513-523 | no navigator means exit with status 1; otherwise the first is taken, with a warning exactly when there were several, ending with the name's first character |
| Orchestration.RunUrls | tools/checksum_url.py:530-553 | URLs are attempted in order up to and including the first one that stops the loop; hashed URLs are shown and get version information; failed downloads are reported on the aligned line; the end is finish, exit with status 1, or the exception it does not handle |
| Orchestration.Ending | tools/checksum_url.py:535-553 | every URL is attempted and the program finishes exactly when no outcome stops the loop; otherwise the URLs up to and including the first stopping one are attempted, and the end is exit status 1 for a failed download or the unhandled exception itself |
| Orchestration.FirstStop | tools/checksum_url.py:535-549 | the first position whose outcome stops the loop: no earlier one does |
| Orchestration.NoFailEarlyVisitsAll | tools/checksum_url.py:544-549 | without `--fail-early`, when every error is a failed download, every URL is attempted and the program finishes |
| Orchestration.FailEarlyStopsAtFirstError | tools/checksum_url.py:544-549 | with `--fail-early` the loop stops at the first URL that failed, and no later URL is attempted |
| Orchestration.SuccessesAreTheHashedUrls | tools/checksum_url.py:538-542 | the URLs with version information are exactly the attempted URLs that were hashed |
| Orchestration.EventsFollowUrls | tools/checksum_url.py:535-541 | every hash shown belongs to the URL at that position (counted from 1) and is that URL's hash |

## Left out

- The hash algorithms themselves: a digest is the list of bytes fed to it, and the hex digest is a function of the algorithm name and those bytes. `digester.name` is taken to be the requested algorithm name.
- DigestReader.GetHashFromUrl: `count`, `human_size` and the bar's format string are left out, and the bar is its counter. `human_size` runs even without a bar and is taken never to raise. A content-length of 2**1024 or more would make its floating-point division raise `OverflowError`, failing the download with `overflow error`, while the model hashes the body. Python's limit on the number of digits `int` parses, another `ValueError`, is left out too.
- DigestReader.GetHashFromUrl: the `content-length` value is read as an optional sign followed by ASCII digits. Python's `int` also accepts surrounding whitespace and underscores between digits.
- DigestReader.GetHashFromUrl: a body that breaks off is modelled as the bytes that arrive followed by the exception. Algorithms whose `hexdigest` needs a length are left out.
- `display_response` at `verbose > 1`, and `html2text`, are left out. They only print the page.
- CamelCase.HumanizeIdentifier: lower-cases ASCII letters only, where Python's `str.lower` also maps other letters. Class names are ASCII.
- The regular-expression engine and `cmp_version.VersionString` are not part of this model. The search and the comparison are parameters, and the comparison is required to be a total preorder.
- Versions.UrlsToUrlVersion: the search returns the text of group 1. An invalid pattern (`re.error`), a pattern without a group (`IndexError`), and a group that did not take part (`None`) are left out.
- Login: every browser's site is a function of that browser's own history. Cookies shared through the common `requests` session are left out.
- Orchestration.RunUrls: the per-URL outcome of `get_hash_from_url` is a parameter, and so is `get_version_info`. `get_urls`, `get_package_info`, the output plugins and `out.finish` are not part of this model. The model records the arguments shown and how the loop ends. `out.display_hash` and `get_version_info` are taken never to raise, although they sit in the same `try`: a `DownloadFailedException` from either would be reported after the hash was shown and leave the URL without version information, and any other exception from them would end the program.
- The `argparse` set-up, `digests_formatted`, the plugin registry, the `--yes` countdown, keyboard handling, `check_root_set_or_exit`, `write_digest` and `test_hash_length`: these are command-line glue, terminal I/O, or never called from the core.
