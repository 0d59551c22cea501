# Fortigate Log Sentinel: candidate selection and anomaly classification

A Dafny model of the detection pipeline of `fls.py`, the "Unusual Login"
check of Fortigate Log Sentinel. The check reads a firewall or VPN access log
and takes the source address of each line (`srcip=`). It resolves each
address to a GeoIP location and collects every address with the first
location seen for it. The operator then picks one address and location as
the baseline, and the check reports every login whose address or location
differs from it.

The project has one module per component:

- `wrappers.dfy`, module `Wrappers`: `Option`, used for Python's `None` results.
- `line_parser.dfy`, module `LineParser`: `extract_srcip`. It is a leftmost,
  greedy search for `srcip=[\d\.]+`, written as a function that moves one
  position to the right at a time. Here `\d` means the ASCII digits, and
  octets are not range-checked.
- `aggregator.dfy`, module `Aggregator`: `gather_normal_candidates`.
  - The method keeps the loop of fls.py. It appends to `logs` and inserts
    into the ordered dictionary `candidate_ips`, which is modelled as a
    sequence of pairs. A `seen` set plays the part of the dictionary's
    membership test.
  - The method is proved equal to two specification functions, `Logs` and
    `FirstSeen`. Lemmas then characterise these by positions: `logs` holds
    exactly the qualifying lines, in order, and `candidate_ips` holds exactly
    the first occurrences, in first-seen order.
- `baseline_selector.dfy`, module `BaselineSelector`: the selection rule of
  `confirm_normal_ip`, applied to one operator reply.
- `anomaly_classifier.dfy`, module `AnomalyClassifier`: the anomaly loop of
  `unusual_login_check`. The method is proved equal to the filter
  `Anomalies`.
- `unusual_login.dfy`, module `UnusualLogin`: the whole check for one reply,
  plus lemmas that join the components. One of these lemmas is the
  three-login scenario (1.1.1.1 Los Angeles, 2.2.2.2 Paris, 1.1.1.1 Los
  Angeles): only the Paris line is reported.

The GeoIP reader is the function parameter `lookup: string -> Option<Location>`.
`None` stands for any lookup error, which `get_location` turns into `None`.
A `Location` holds country, subdivision and city. Each may be the literal
`"Unknown"`, and locations are compared by exact string equality.

## Model

| member | source | states |
|---|---|---|
| `LineParser.RunFrom` | fls.py:18 | the greedy `[\d\.]+` at a position; characterised by `RunFromIsMaximal` |
| `LineParser.ExtractFrom` | fls.py:18 | the left-to-right scan of `re.search` from a position; characterised by `ExtractFromSpec` |
| `LineParser.ExtractSrcIp` | fls.py:17-19 | `extract_srcip`; characterised by `ExtractSrcIpSpec` and `ExtractSrcIpComplete` |
| `LineParser.RunFromIsMaximal` | fls.py:18 | the greedy `[\d\.]+` run: its result lies in the line at that position, has only digits and dots, and cannot be extended |
| `LineParser.ExtractFromSpec` | fls.py:18 | the search from position i gives nothing exactly when no match starts at or after i; otherwise it gives the maximal run after the leftmost such match |
| `LineParser.ExtractSrcIpSpec` | fls.py:17-19 | `extract_srcip` is `None` exactly when no `srcip=` in the line is directly followed by a digit or dot; otherwise it is non-empty, only digits and dots, and the maximal run after the leftmost such key |
| `LineParser.ExtractSrcIpComplete` | fls.py:17-19 | the converse: a leftmost match with its maximal run always gives exactly that run, so the contract above determines the result |
| `LineParser.ExtractAfterPrefix` | fls.py:17-19 | a line of the form text-without-`s`, `srcip=`, address, separator gives that address, with octets not range-checked |
| `Aggregator.ParseEntry` | fls.py:52-58 | the loop body for one line: the entry it appends, or nothing at either `continue`; its effect on `logs` is stated by `LogsStep` and `LogsAppendEntry` |
| `Aggregator.Qualifies` | fls.py:52-57 | a line gets past both `continue`s; `LogsAreQualifyingLines` proves `logs` holds exactly these lines |
| `Aggregator.Logs` | fls.py:50-58 | `logs` after the loop has seen a prefix of the lines; characterised by `LogsAreQualifyingLines` and `LogsStep` |
| `Aggregator.FirstSeen` | fls.py:59-61 | `candidate_ips` after the loop; characterised by `FirstSeenIsFirstOccurrences`, `FirstSeenKeys`, `FirstSeenDistinct` and `FirstSeenKeepsFirstLocation` |
| `Aggregator.Get` | fls.py:60-61 | a dictionary lookup succeeds exactly for the keys, and then returns a value stored with that key |
| `Aggregator.GatherNormalCandidates` | fls.py:48-62 | the loop's `logs` and `candidate_ips` are the specification values `Logs(lines)` and `FirstSeen(logs)`; the dictionary's keys are distinct and are exactly the addresses in `logs` |
| `Aggregator.LogsAreQualifyingLines` | fls.py:51-58 | `logs` has one entry per qualifying line, in file order (indices strictly increasing). Each entry has its line's extracted address and that address's successful lookup. A line qualifies exactly when it has an address and its lookup succeeds |
| `Aggregator.LogsStep` | fls.py:52-58 | a line with no address, or whose lookup fails, leaves `logs` unchanged; any other line appends exactly its (line, address, location) |
| `Aggregator.LogsAppendEntry` | fls.py:58 | a line that the loop body turns into an entry appends that entry at the end of `logs` |
| `Aggregator.FirstSeenIsFirstOccurrences` | fls.py:58-61 | the items of `candidate_ips` are the (address, location) of the first entry of each address, in first-seen order, and every first entry is included |
| `Aggregator.FirstSeenKeys` | fls.py:58-61 | the keys of `candidate_ips` are exactly the addresses in `logs` |
| `Aggregator.FirstSeenDistinct` | fls.py:59-61 | every address is a key of `candidate_ips` at most once |
| `Aggregator.FirstSeenKeepsFirstLocation` | fls.py:59-61 | looking up any address in `candidate_ips` gives its first entry's location: a later entry with another location never replaces it |
| `BaselineSelector.ConfirmNormalIp` | fls.py:65-82 | no candidates is the fatal exit whatever the reply; a reply that is not a number, or a number outside 1..len, is rejected; an accepted n gives item n-1, which is a member of the dictionary |
| `BaselineSelector.EveryCandidateSelectable` | fls.py:69-78 | the candidate at position k is chosen by the reply k+1 |
| `BaselineSelector.ChosenIsCandidate` | fls.py:76-78 | the chosen pair's address looks up its location in `candidate_ips`, and two different numbers choose different addresses |
| `AnomalyClassifier.IsAnomalous` | fls.py:110 | the condition in fls.py `ip != normal_ip or (ip == normal_ip and location != normal_location)` equals `ip != normal_ip or location != normal_location` |
| `AnomalyClassifier.Anomalies` | fls.py:105-111 | the anomaly list as a filter of `logs`; characterised by `AnomaliesAreAnomalousEntries` and `AnomaliesOnlyAnomalous` |
| `AnomalyClassifier.FindAnomalies` | fls.py:105-111 | the loop's result is the filter `Anomalies`. Every reported entry comes from `logs` and differs from the baseline in address or location. Every such entry of `logs` is reported |
| `AnomalyClassifier.AnomaliesOnlyAnomalous` | fls.py:109-111 | every reported entry is an entry of `logs` that differs from the baseline in address or location |
| `AnomalyClassifier.AnomaliesAreAnomalousEntries` | fls.py:105-111 | the anomaly list is the order-preserving subsequence of `logs` made of exactly the entries whose address or location differs from the baseline. So an entry with another address is always reported, even at the baseline location, and an entry equal to the baseline never is |
| `UnusualLogin.UnusualLoginCheck` | fls.py:94-111 | the check for one reply ends fatally exactly when no line qualifies. It asks again exactly when the selection rule rejects the reply. Otherwise it reports the anomalies of `logs` against the chosen pair, whose location is its address's lookup |
| `UnusualLogin.NoCandidatesIffNoQualifyingLine` | fls.py:48-68 | `candidate_ips` is empty exactly when no line has an address whose lookup succeeds |
| `UnusualLogin.BaselineLocationResolves` | fls.py:97-102 | the chosen location is the lookup of the chosen address, so the re-lookup for a `None` baseline location is never reached |
| `UnusualLogin.AnomaliesShorter` | fls.py:109-111 | when some entry of `logs` matches the baseline, fewer entries are reported than `logs` holds |
| `UnusualLogin.FirstBaselineEntryNotAnomalous` | fls.py:105-111 | with the baseline chosen from `candidate_ips` (first-seen locations, fls.py:59-61), the first entry of `logs` with the baseline address is never reported, so the report never holds every entry |
| `UnusualLogin.BaselineReportIsOtherAddresses` | fls.py:105-111 | every entry of `logs` with the baseline address has the baseline location, so the report is exactly the entries with another address, in order: within one run the location half of the condition at fls.py:110 never decides |
| `UnusualLogin.ThreeLoginScenario` | fls.py:48-111 | three logins (1.1.1.1 Los Angeles, 2.2.2.2 Paris, 1.1.1.1 Los Angeles) give both addresses as candidates in that order; choosing number 1 reports only the Paris line |

## Left out

- Reading the log file and dropping blank lines (fls.py:87-92) are I/O. The model takes the already stripped, non-blank lines as a `seq<string>`.
- GeoIP resolution (`get_location`, `geoip2.database.Reader`, `reader.close()`, fls.py:36-45, 94, 101, 112) is a foreign library. It is the parameter `lookup`, where `None` stands for a raised lookup error. Being a function, `lookup` gives the same answer for the same address throughout a run, which a database reader opened once is assumed to do. The reader's lifetime is not modelled: fls.py closes it at lines 101 and 112, but not on the fatal exit at line 68 inside `confirm_normal_ip`.
- The re-lookup when the baseline location is `None` (fls.py:97-102) cannot be reached. `BaselineLocationResolves` shows this, so `UnusualLoginCheck` leaves the branch out.
- `adjust_timestamp` (fls.py:23-33) depends on the datetime library's ISO parsing and time-zone conversion. The UTC-offset prompt (fls.py:141-147) uses floating point.
- The `while True` re-prompt loop and `int(input())` (fls.py:73-82) are terminal interaction. The model applies the rule to one reply that is already parsed. `None` is input that `int` rejects, and the outcome `Rejected` means "prompt again".
- The menu, the printed messages and the report table (fls.py:6-14, 70-72, 114-124, 126-153) are presentation.
- The `sys.exit` at fls.py:68 (no candidates) is modelled as the result values `NoCandidates` and `NoCandidatesFatal`. The exits at fls.py:92 (the log file cannot be read), 102 (failed re-lookup) and 134 (menu) fall under the file reading, re-lookup and menu lines of this section.
- `LineParser.ExtractSrcIpSpec`: Python's `\d` also matches non-ASCII Unicode digits. The model accepts only ASCII `0`-`9`.
- `UnusualLogin.ThreeLoginScenario`: the scenario is stated for any timestamp field without the letter `s` and any separator after the address. The stamps `2024-01-01T10:00:00+00:00 ` … and the rest ` action=login` are one instance, and it is not stated with those literal strings.
