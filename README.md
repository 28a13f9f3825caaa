# Proxy pipeline model (daili2/proxy_manager.py)

A Dafny model of the proxy acquisition and verification pipeline of the
PyQt proxy manager in `daili2/proxy_manager.py`:

- **Store** — `DatabaseManager` over the SQLite table `proxies`. The table is a
  sequence of rows in id (rowid) order plus the AUTOINCREMENT counter, held by
  the class `ProxyStore`. It covers insert-if-absent on `(ip, port, protocol)`,
  the status overwrite keyed on `(ip, port)` only, the GROUP BY compaction, the
  two SELECTs and clear-all.
- **Verifier** — `ProxyVerifier`. It covers the five-probe `verify_proxy`
  decision (valid iff at least two probes succeed) and the completion loop of
  `run`. That loop is a sequential loop over an arbitrary arrival order of
  results, stop flags and raised results, and it produces the signal trace
  (`update`, `progress`, `finished`).
- **Harvester** — `ProxyCrawler.run`. It covers which adapters a source name
  calls, in what order, and the tagging of the collected pairs with the
  requested kind. What each adapter downloads is an input.
- **LineFormat** and **Text** — the `ip:port` line parser shared by the
  text-list adapters, and the `ip:port [kind]` import/export line format.
  Both sit on models of Python's `str.strip`, `str.split`, `int()` and `str()`.
- **WorkingSet** — the existence check of `update_proxy_list`,
  `add_proxy_manually` and `import_proxies`: an address `(ip, port)` is listed
  once, whatever its kind.
- **App** — `ProxyManagerApp` as the class `ProxyManager`. It holds the working
  list, the verified results, the store, and the handlers between crawling,
  verifying and storing, including the reconcile step that clears the store and
  re-adds the verified proxies.
- **Sources** — `ProxySourceManager` with `add_source` and `delete_source`, and
  the default source names.

Inputs the model takes as parameters:

- the selected kind and filter;
- the text of the manual-add field;
- the lines of an imported file;
- the selected source row;
- the probe outcomes and elapsed time of a verification;
- the arrival order of results and the stop flags;
- the clock (`now`).

Timestamps are integers and `response_time` is an optional real. Only
`MAX` compares response times, and `MAX` ignores NULLs.

Where the code and the design description differ, the model follows the code:

- Progress reaches 100 only when no result raised. A raised result is logged
  and does not advance `verified_count` (lines 181-197), so a run with a raised
  result ends below 100.
- A manual add touches only the working list, never the store.
- The store key includes the protocol but the working list's key does not.
  The model keeps both: `add_proxy` will keep `(ip, port, http)` and
  `(ip, port, socks5)`, `update_proxy_status` overwrites both, and the list
  holds one of them.

## Model

| member | source | states |
|---|---|---|
| Store.WellFormed | daili2/proxy_manager.py:35-43 | the table invariant: ids strictly ascending (rowid order), each below the AUTOINCREMENT counter, which is at least 1 |
| Store.Find | daili2/proxy_manager.py:54-59 | the lookup of `add_proxy`: the first row with the key, or the table length when no row has it |
| Store.FindHasKey | daili2/proxy_manager.py:54-59 | the lookup finds a row iff some row has the key |
| Store.KeySetHasKey | daili2/proxy_manager.py:88 | the set of distinct `(ip, port, protocol)` keys holds exactly the keys some row has |
| Store.KeySetBound | daili2/proxy_manager.py:88 | there are never more distinct keys than rows |
| Store.UniqueKeySetSize | daili2/proxy_manager.py:88 | with one row per key, the key count equals the row count |
| Store.AddKeepsUnique | daili2/proxy_manager.py:48-71 | inserting keeps one row per key, and the key set grows by exactly the inserted key |
| Store.AddKeepsWellFormed | daili2/proxy_manager.py:64-67 | the new row takes the counter as id, so ids stay ascending and below the counter |
| Store.AddExtends | daili2/proxy_manager.py:54-67 | an add keeps every old row in place and appends at most one |
| Store.AddTwice | daili2/proxy_manager.py:54-61 | a second add of the same key leaves the table unchanged |
| Store.ProxyStore.AddProxy | daili2/proxy_manager.py:48-71 | returns true iff no row had `(ip, port, protocol)`; then exactly one row is appended with `is_valid = 1`, `last_checked = now` and the next id; otherwise nothing changes |
| Store.Updated | daili2/proxy_manager.py:137-146 | every row at `(ip, port)`, whatever its protocol, gets the new `is_valid`, `response_time` and `last_checked`; every other row, and every other column, is unchanged |
| Store.UpdatedNoMatch | daili2/proxy_manager.py:140-144 | with no row at the address the update is a no-op |
| Store.UpdatedKeepsKeys | daili2/proxy_manager.py:140-144 | ids and keys are untouched, so well-formedness and one-row-per-key are kept |
| Store.UpdatedUnique | daili2/proxy_manager.py:140-144 | an update keeps one row per key |
| Store.UpdatedTwice | daili2/proxy_manager.py:140-144 | two updates of one address leave what the second alone would |
| Store.ProxyStore.UpdateProxyStatus | daili2/proxy_manager.py:137-146 | the table becomes the updated rows and the counter is unchanged |
| Store.MaxRt | daili2/proxy_manager.py:85 | `MAX(response_time)`: NULL only if both are NULL; otherwise one of the two values, at least as large as each non-NULL one |
| Store.Compact | daili2/proxy_manager.py:83-99 | the compaction never has more rows than before |
| Store.CompactStepKeys | daili2/proxy_manager.py:83-99 | folding one row in keeps one row per key and adds exactly that row's key |
| Store.CompactKeys | daili2/proxy_manager.py:83-99 | afterwards there is one row per key, and exactly the keys that existed before |
| Store.CompactBounds | daili2/proxy_manager.py:85-86 | each survivor's id is at most every id of its group, and its `is_valid`, `last_checked` and `response_time` are at least every value of the group |
| Store.CompactAttained | daili2/proxy_manager.py:85-86 | each survivor's id, `is_valid`, `last_checked` and `response_time` are values some row of its group had, so together with CompactBounds they are the group's MIN and MAX |
| Store.CompactCount | daili2/proxy_manager.py:79-106 | the row count afterwards equals the number of distinct keys before, and the key set is unchanged |
| Store.CompactUnique | daili2/proxy_manager.py:83-99 | a table with one row per key is left as it is |
| Store.CompactIdempotent | daili2/proxy_manager.py:73-111 | compacting twice equals compacting once |
| Store.CompactWellFormed | daili2/proxy_manager.py:92-99 | the reinserted survivors keep ascending ids below the counter, which DELETE does not reset |
| Store.ProxyStore.DeduplicateProxies | daili2/proxy_manager.py:73-111 | the table becomes the compaction, and the result is the old row count minus the number of distinct keys |
| Store.ValidListingMembers | daili2/proxy_manager.py:113-119 | `get_all_proxies` lists exactly the `(ip, port, protocol, response_time)` of the rows with `is_valid = 1` |
| Store.TypedIsNarrowed | daili2/proxy_manager.py:121-128 | `get_proxies_by_type` is `get_all_proxies` narrowed to one protocol, in the same order |
| Store.ProxyStore.GetAllProxies | daili2/proxy_manager.py:113-119 | returns the valid listing of the table |
| Store.ProxyStore.GetProxiesByType | daili2/proxy_manager.py:121-128 | returns the valid listing of one protocol |
| Store.ProxyStore.ClearAllProxies | daili2/proxy_manager.py:130-135 | removes every row and keeps the AUTOINCREMENT counter |
| Store.ProxyStore.constructor | daili2/proxy_manager.py:27-46 | opening a store over a well-formed table (an existing file, possibly holding repeated keys, or the empty table with the counter at 1 on a fresh file) holds exactly that table |
| Verifier.Successes | daili2/proxy_manager.py:223-230 | `success_count` is at most the number of probes (five), and is 0 iff no probe succeeded |
| Verifier.SuccessesMonotone | daili2/proxy_manager.py:223-230 | more successful probes never lower the count |
| Verifier.VerifyProxy | daili2/proxy_manager.py:201-244 | the result is valid iff setup raised nothing and at least 2 of the 5 probes succeeded; the response time is the elapsed time when valid and 0.0 otherwise |
| Verifier.Percent | daili2/proxy_manager.py:193 | progress is non-negative, at most 100 while `verified <= total`, and 100 when all are verified |
| Verifier.PercentMonotone | daili2/proxy_manager.py:193 | more verified results never lower the progress |
| Verifier.FirstStop | daili2/proxy_manager.py:176-178 | the first check that sees the stop flag, with no stop before it |
| Verifier.Handled | daili2/proxy_manager.py:175-178 | the number of results processed before the loop breaks: none of them saw the stop flag |
| Verifier.DoneCount | daili2/proxy_manager.py:181-194 | completions that did not raise, at most the number processed |
| Verifier.StepsNotFinished | daili2/proxy_manager.py:175-197 | the loop itself never emits `finished` |
| Verifier.ProgressBounded | daili2/proxy_manager.py:190-194 | every emitted progress lies in [0, 100] and never exceeds the share completed so far, and for any two progress events the later one is at least the earlier one |
| Verifier.ProgressReachesHundred | daili2/proxy_manager.py:190-194 | when every result completes without raising and no stop is seen, the last progress is 100 |
| Verifier.UpdatesCounted | daili2/proxy_manager.py:181-197 | each completed result emits one update and one progress event, and a raised one emits none |
| Verifier.FinishedOnce | daili2/proxy_manager.py:199 | the trace holds `finished` exactly once, as its last event |
| Verifier.ProxyVerifier.constructor | daili2/proxy_manager.py:155-163 | running, with `verified_count = 0` and `total_count` = the list length |
| Verifier.ProxyVerifier.Stop | daili2/proxy_manager.py:246-247 | clears the running flag and nothing else |
| Verifier.ProxyVerifier.Run | daili2/proxy_manager.py:165-199 | the emitted events are the trace of the results processed before the stop flag was seen, followed by one `finished`; `verified_count` is the number of those that completed; the flag stays set iff no stop was seen |
| Harvester.AdapterFor | daili2/proxy_manager.py:262-318 | a single source name selects the adapter of that name |
| Harvester.AdapterForName | daili2/proxy_manager.py:262-318 | each adapter's own name selects it |
| Harvester.AdapterForUnknown | daili2/proxy_manager.py:262-318 | a name no adapter has selects none |
| Harvester.AdaptersComplete | daili2/proxy_manager.py:320-342 | every adapter is in the adapter list |
| Harvester.AdaptersDistinct | daili2/proxy_manager.py:320-342 | no adapter is listed twice |
| Harvester.AllSourcesOrder | daili2/proxy_manager.py:319-342 | "all-sources" calls every adapter once in the order of the single-name branches, leaving out free-proxy-list unless the kind is "http" |
| Harvester.AllSourcesFreeProxyList | daili2/proxy_manager.py:329-330 | "all-sources" calls free-proxy-list iff the kind is "http" |
| Harvester.Harvest | daili2/proxy_manager.py:344-346 | every emitted entry is tagged with the requested kind |
| Harvester.HarvestUnknown | daili2/proxy_manager.py:259-346 | an unrecognised source name emits an empty batch |
| Harvester.HarvestSingle | daili2/proxy_manager.py:262-346 | a single-source name emits exactly that adapter's pairs, tagged |
| Harvester.CollectedAppend | daili2/proxy_manager.py:321-342 | collecting over two runs of adapters concatenates their pairs in call order |
| Harvester.HarvestConcat | daili2/proxy_manager.py:345 | the batch is the first adapter's tagged pairs followed by the rest's, with nothing lost, reordered or tagged differently |
| Proxy.Tag | daili2/proxy_manager.py:345 | the `typed_proxies` comprehension keeps the length and every address, and sets every kind |
| Proxy.TagAppend | daili2/proxy_manager.py:345 | tagging distributes over concatenation |
| Text.Strip | daili2/proxy_manager.py:1917 | `str.strip()`: the result has no whitespace at either end and is no longer than the input |
| Text.StripPadded | daili2/proxy_manager.py:1966 | stripping text surrounded by whitespace gives the stripped text |
| Text.StripTrimmed | daili2/proxy_manager.py:1966 | text already trimmed is unchanged |
| Text.Split | daili2/proxy_manager.py:1927 | `str.split(sep)` always gives at least one part |
| Text.JoinSplit | daili2/proxy_manager.py:1927 | joining the parts with the separator gives back the string |
| Text.SplitChar | daili2/proxy_manager.py:1927 | splitting on one character gives parts free of it, one more than its occurrences, so exactly two iff it occurs once |
| Text.SplitAbsent | daili2/proxy_manager.py:1927 | a string without the separator splits to itself |
| Text.SplitJoin | daili2/proxy_manager.py:673 | parts that do not contain the separator's first character come back from splitting their join |
| Text.ParseIntToString | daili2/proxy_manager.py:680 | `int(str(n)) == n` for every integer |
| Text.ParseIntPadded | daili2/proxy_manager.py:680 | `int()` ignores surrounding whitespace |
| Text.ParseIntTrimmed | daili2/proxy_manager.py:680 | `int()` of text with no surrounding whitespace reads it as is |
| LineFormat.ParsePair | daili2/proxy_manager.py:675-685 | an accepted line is `ip` (no ':'), one ':', and a port text that `int()` reads as the port |
| LineFormat.ParsePairAccepts | daili2/proxy_manager.py:677-681 | a line made of a colon-free ip, ':' and colon-free text that `int()` reads is accepted as that pair |
| LineFormat.ParseFormatPair | daili2/proxy_manager.py:675-685 | `ip:port` lines written from a colon-free ip parse back to the pair |
| LineFormat.ParsePairsAppend | daili2/proxy_manager.py:675-685 | malformed lines are skipped without affecting the others: parsing distributes over concatenation |
| LineFormat.TextListRoundTrip | daili2/proxy_manager.py:673-685 | a text list written from safe pairs and separated by "\r\n" (or by "\n", the split used by the SOCKS5 list at line 705) parses back to the same pairs in order |
| LineFormat.ParseImportLine | daili2/proxy_manager.py:1965-1984 | a line is blank iff it is empty once stripped; a non-blank line is skipped as malformed iff its address part does not split into exactly two pieces on ':' or `int()` rejects the second; an entry's ip holds no ':', its kind is the bracketed kind, and a line without '[' takes the default kind |
| LineFormat.ExportLineParts | daili2/proxy_manager.py:1973-1980 | the import split of an exported line gives back its address part and kind |
| LineFormat.ImportExportLine | daili2/proxy_manager.py:1968-1984 | importing an exported `ip:port [kind]` line gives back `(ip, port, kind)` when the ip has no ':' or '[' and does not start with whitespace, and the kind has no '[' or ']' and no surrounding whitespace |
| LineFormat.ImportedEntriesAppend | daili2/proxy_manager.py:1965-1998 | a malformed line never aborts the others: import distributes over concatenation |
| LineFormat.ImportExportLines | daili2/proxy_manager.py:1965-2035 | importing an exported list yields the list back, entry by entry, for every default kind, whenever no ip or kind contains a line break, ':' or '[' and no kind contains ']' or outer spaces |
| WorkingSet.MergedSnoc | daili2/proxy_manager.py:1540-1559 | a candidate is appended iff its address is not yet listed, counting ones appended earlier in the batch |
| WorkingSet.MergedExtends | daili2/proxy_manager.py:1549-1550 | existing entries are never modified, removed or reordered |
| WorkingSet.MergedUnique | daili2/proxy_manager.py:1542-1550 | the list stays free of repeated addresses |
| WorkingSet.MergedListed | daili2/proxy_manager.py:1540-1559 | an address is listed afterwards iff it was listed before or came in the batch |
| WorkingSet.MergedNew | daili2/proxy_manager.py:1549-1550 | every appended entry is a candidate of the batch whose address was not listed before |
| WorkingSet.MergedCovered | daili2/proxy_manager.py:1542-1548 | a batch whose addresses are all listed changes nothing |
| WorkingSet.MergedAgain | daili2/proxy_manager.py:1539-1561 | applying the same batch twice adds nothing the second time |
| WorkingSet.MergedFresh | daili2/proxy_manager.py:1539-1561 | a batch with no repeated or already listed address is appended whole, in order |
| App.ProxyManager.IsListed | daili2/proxy_manager.py:1542-1547 | the existence loop finds a match iff some entry has the address |
| App.ProxyManager.Admit | daili2/proxy_manager.py:1542-1550 | a candidate is appended iff no entry has its address, and it reports whether it was; nothing else changes |
| App.ProxyManager.UpdateProxyList | daili2/proxy_manager.py:1539-1561 | the list becomes the merge of the batch, and the count is its growth |
| App.ProxyManager.AddProxyManually | daili2/proxy_manager.py:1916-1946 | empty text, text without ':', a bad split or port, or an address already listed each leave the list unchanged with their own outcome; otherwise `(ip, port, selected kind)` is appended |
| App.ImportStep | daili2/proxy_manager.py:1965-1996 | one more line of an import: an entry it parses to is appended iff its address is not listed yet; a blank or malformed line changes nothing |
| App.ProxyManager.ImportProxies | daili2/proxy_manager.py:1948-2008 | the list becomes the merge of the parsed entries of the lines, and the count is its growth |
| App.ProxyManager.ExportProxies | daili2/proxy_manager.py:2010-2044 | nothing is written for an empty list; otherwise one `ip:port [kind]` line per entry, in order |
| App.ExportImportList | daili2/proxy_manager.py:1948-2044 | importing an exported list of distinct addresses into an empty list gives the same list back, whatever the default kind, whenever every entry is exportable (no line break in an ip or kind) |
| App.Visible | daili2/proxy_manager.py:2046-2062 | an entry is shown exactly when it is in the list and the filter is "全部" or names its kind; the shown list is no longer than the list |
| App.VisibleAll | daili2/proxy_manager.py:2053-2055 | "全部" shows every entry |
| App.VisibleKind | daili2/proxy_manager.py:2056-2059 | any other filter shows as many entries as the kind count |
| App.ProxyManager.FilterProxies | daili2/proxy_manager.py:2046-2062 | the shown item texts are the line format of the visible entries |
| App.KindCount | daili2/proxy_manager.py:2067-2068 | a kind count is at most the list length; it is 0 exactly when no entry has the kind, and the list length exactly when every entry has it |
| App.KindsPartition | daili2/proxy_manager.py:2064-2070 | the SOCKS5 and HTTP counts together never exceed the total |
| App.ProxyManager.UpdateStats | daili2/proxy_manager.py:2064-2070 | the total and the per-kind counts of the list, obeying that bound |
| App.ProxyManager.ClearProxyList | daili2/proxy_manager.py:1792-1796 | the list becomes empty, nothing else changes |
| App.ProxyManager.OnStatus | daili2/proxy_manager.py:1688-1719 | a valid result is appended to the verified proxies; the store gets the status update; one-row-per-key is kept when the table had it |
| App.Addresses | daili2/proxy_manager.py:171-172 | the verifier is handed `proxy[:2]` of each entry, in order |
| App.ProxyManager.VerifyListProxies | daili2/proxy_manager.py:1563-1581 | nothing starts on an empty list; otherwise a fresh running verifier over the list's addresses, with the verified results reset and the total set |
| App.Retagged | daili2/proxy_manager.py:1612 | the list after a verification: each verified proxy with the selected kind, in order |
| App.AddAllValid | daili2/proxy_manager.py:1589-1594 | the adds keep the ids ascending below the counter and one row per key |
| App.AddAllExtends | daili2/proxy_manager.py:1589-1594 | the adds keep the old rows in front, unchanged, and add at most one row per verified proxy |
| App.AddAllSnoc | daili2/proxy_manager.py:1589-1594 | one more verified proxy is one more `add_proxy` on the table so far |
| App.ProxyManager.StoreAll | daili2/proxy_manager.py:1589-1594 | the store becomes the adds of the verified proxies under the selected kind, in order, one-row-per-key is kept when the table had it, and the count is the table's growth, at most one per verified proxy |
| App.AddAllKeys | daili2/proxy_manager.py:1589-1594 | afterwards a key is present iff it was before or belongs to a verified proxy under the selected kind |
| App.ProxyManager.OnListVerificationFinished | daili2/proxy_manager.py:1583-1619 | the store receives one add per verified proxy under the selected kind; the inserted count is the growth of the table; the invalid count is total minus verified; one-row-per-key is kept when the table had it; the list becomes the retagged verified proxies |
| App.FromListings | daili2/proxy_manager.py:1639-1642 | each listing becomes `(ip, port, protocol)`, in order |
| App.ProxyManager.ShowListings | daili2/proxy_manager.py:1639-1642 | the cleared list becomes the listings' entries |
| App.ProxyManager.VerifyDbProxies | daili2/proxy_manager.py:1621-1655 | nothing starts when the store has no valid row; otherwise the list becomes the valid rows and a fresh verifier runs over their addresses |
| App.ProxyManager.ExportDbProxies | daili2/proxy_manager.py:1772-1790 | the list is replaced by the store's valid rows |
| App.AddAllFresh | daili2/proxy_manager.py:1679-1682 | every row the re-adds create has the selected kind, `is_valid = 1` and the timestamp |
| App.FreshListings | daili2/proxy_manager.py:113-128 | on such rows both SELECTs list every row |
| App.Reconcile | daili2/proxy_manager.py:1679-1682 | after clear and re-add there is exactly one valid row of the selected kind per distinct verified address and no other row, and both SELECTs list every row |
| App.ProxyManager.OnDbVerificationFinished | daili2/proxy_manager.py:1657-1686 | the store becomes the re-adds of the verified proxies into the cleared table (the counter kept), so it has one row per key; the list becomes the retagged verified proxies |
| App.ReportedAsWrittenMiscounts | daili2/proxy_manager.py:1756-1760 | a store holding one invalid row is reported as having had no records |
| App.ReportedCounts | daili2/proxy_manager.py:1756-1760 | the corrected report's original count is the row count before, and its remaining count is the number of distinct keys |
| App.ProxyManager.DeduplicateDatabase | daili2/proxy_manager.py:1751-1770 | the store is compacted, and the report's original and remaining counts are the row counts before and after; from any well-formed table, duplicates included, the result has one row per key |
| App.ProxyManager.constructor | daili2/proxy_manager.py:986-990 | empty lists and a fresh store opened over the given well-formed table, repeated keys allowed |
| Sources.DefaultSourcesSelect | daili2/proxy_manager.py:991-1012 | the default names are the adapters' names in call order, then "all-sources"; each selects its adapter |
| Sources.DefaultSourcesDistinct | daili2/proxy_manager.py:991-1012 | no default name is repeated |
| Sources.IndexOf | daili2/proxy_manager.py:2311 | the first position of a listed name |
| Sources.RemoveFirst | daili2/proxy_manager.py:2311 | `list.remove` removes one element |
| Sources.RemoveFirstAt | daili2/proxy_manager.py:2306-2311 | in a list without repeats, removing the selected row's name removes exactly that row and keeps the list free of repeats |
| Sources.ProxySourceManager.constructor | daili2/proxy_manager.py:2260-2262 | the dialog starts from a copy of the given names |
| Sources.ProxySourceManager.AddSource | daili2/proxy_manager.py:2298-2304 | the stripped text is appended iff it is non-empty and not yet listed, which keeps the names free of repeats |
| Sources.ProxySourceManager.DeleteSource | daili2/proxy_manager.py:2306-2311 | with no selection nothing changes; otherwise the first occurrence of the selected name goes, which is the selected row when names are not repeated |
| Sources.ProxySourceManager.GetSources | daili2/proxy_manager.py:2313-2315 | returns the current names |

## Findings

| source | as written | input that shows it | evidently intended | confidence | as-written member | corrected member |
|---|---|---|---|---|---|---|
| daili2/proxy_manager.py:1756-1760 | `deduplicate_database` reports "original records" as `removed_count + len(get_all_proxies())`, and `get_all_proxies` returns only rows with `is_valid = 1` | a table holding one row with `is_valid = 0`: it removes nothing and reports 0 original and 0 remaining records | the record counts of the whole table, before and after compaction | medium, not executed | App.ReportedAsWrittenMiscounts | App.ProxyManager.DeduplicateDatabase |

`App.ReportedAsWritten` computes the report the way the code does. `App.Reported` and `App.ReportedCounts` give the corrected report, which is what `DeduplicateDatabase` returns.

## Left out

- Network I/O is left out because it is foreign I/O: the `requests` sessions, HTML selection with BeautifulSoup in the `crawl_*` adapters, `_test_proxy_thread`, `test_proxy`, `test_selected_proxy`, and the IP-location threads `verify_ip_locations` and `_verify_locations_thread`. What an adapter returns and how each probe ends are inputs. Only the text-list line parsing is modelled.
- The base64 decoding in `crawl_proxy_list_org` (lines 383-390) is left out because it is a foreign library call.
- Threads are left out: `ThreadPoolExecutor`, `QThread`, the lock and signal delivery. The completion loop is sequential, over an arbitrary arrival order given as input. `executor.shutdown` and the worker count have no effect in the model.
- Verifier.Percent: models `int(verified_count / total_count * 100)` as the integer `verified * 100 / total`. Floating-point rounding is left out.
- Text.ParseInt: models `int()` as optional surrounding ASCII whitespace, an optional sign and ASCII digits. Underscore separators and non-ASCII digits and spaces, which Python also accepts, are left out.
- Text.Strip: strips ASCII whitespace only, not the other Unicode whitespace Python also strips.
- The Qt interface is left out: `init_ui`, `log`, message boxes, the context menu, button enabling and disabling, the progress bar, `show_source_manager`, and the item-text rewriting of `update_proxy_status` (lines 1690-1716) and `_update_list_item`. `filter_proxies` is modelled by the texts it shows.
- Windows side effects are left out because they are OS calls: `set_as_proxy` and `unset_proxy` (registry, netsh, WinINet).
- `crawl_proxies` only starts a crawler thread. The crawler is `Harvester.Harvest`, and its batch enters the list through `UpdateProxyList`.
- File dialogs and reading and writing files are left out. An import is the file's lines; an export is the lines the file would hold. The trailing "\n" on each written line and the ".txt" suffix rule are not modelled.
- Clocks are left out. `CURRENT_TIMESTAMP` is the integer parameter `now`, and one verification's adds share one `now`.
- SQLite failures are left out: connection errors and the exceptions that `on_list_verification_finished` catches per `add_proxy` call. Every store operation succeeds in the model.
- The model does not capture that `deduplicate_proxies` is not atomic and that concurrent readers are not isolated.
- A cancelled verification is not modelled beyond `ProxyVerifier.Run`. The finished handlers are modelled for whatever verified proxies have arrived.
- Verifier.ProxyVerifier.Run: requires a fresh verifier (`verified_count = 0`), which is the only way the handlers start one.
- Sources.ProxySourceManager.DeleteSource: requires the selected row to be -1 or a row of the list, which the list widget guarantees because it shows exactly these names.
- app.py, init_db.py, config.py, ask_model.py, static/js/main.js, daili2/build.py, daili2/create_icon.py and daili2/create_arrow.py are not part of this model. They hold web routes, schema seeding, constants, DOM handlers, packaging and icon drawing.
