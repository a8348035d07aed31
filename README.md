# delete-tieba-history: the bulk-delete engine, modelled in Dafny

The tool bulk-deletes a user's history on Baidu Tieba: posts (`thread`),
replies (`reply`), followed forums (`followed_ba`), followed users (`concern`)
and followers (`fan`). Each category is a `Module` with its own `_collect`
(fetch one page of a listing) and `_delete` (delete one entity). All five share
one engine, `Module.run`, and that engine is what this project models:

- **Fingerprints** (`fingerprint.dfy`): an entity is a string-to-string map.
  Its identity is the map without the volatile anti-forgery token `tbs`
  (`remove_tbs`), compared as a set of items (`HashableDict`).
- **Outcomes** (`outcome.dfy`): the response of a delete call is classified
  as a success (`no == 0`) or a failure (no response, undecodable body, any
  other `no`). Each module has its own stop flag: `err_code == 220034` for
  threads and replies, never for the other three.
- **Config** (`config.dfy`): a module's section and its defaults: disabled,
  start at page 1, at most 3 consecutive failures.
- **Engine** (`engine.dfy`): the run loop. `Run` is the `while true` over
  pages, `Pass` is one pass of it, and `DeletePage` is the `for` over the
  page's entities with the source's local variables. Each is proved to compute
  its pure step-by-step specification (`RunSpec`, `Step`, `ProcessPage`, built
  from `VisitEntity` and `RunFrom`).
- **RunProperties** (`run_properties.dfy`): what the run guarantees. The
  ledger holds exactly the fingerprints attempted. `delete` is called at most
  once per fingerprint, and a page's deletes are its entities with a new
  fingerprint, in listing order. The error counter is the number of trailing
  consecutive failures. The run halts right after the first delete that trips
  the circuit breaker or the stop flag. The cursor moves only past a stuck
  page, and every pass of the loop that does not end the run makes progress.
- **Cookies** (`cookie.dfy`): `load_cookie` splits a raw cookie header on
  `;`, strips each segment, splits it at its first `=` and stores the pair in
  the session's jar.
- **Scenarios** (`scenarios.dfy`): three concrete runs on scripted services.

The remote service appears as two oracles in a `Service` value:
`collect(k, page)` and `delete(k, entity)`. Here `k` is the number of earlier
calls to that collaborator, so the answers may follow the service as it
changes. The engine is deterministic, so indexing by call count covers any
deterministic remote. `sys.exit(-1)` is the run outcome `Halted`. The two
plain returns are `Disabled` (the module is not enabled) and `Exhausted` (an
empty page).

Some details of the loop are easy to misread as per-page checks; the model
follows the code:
- The circuit breaker and the stop flag are checked right after every delete,
  not after the whole page, so a run can stop in the middle of a page.
- After a page with new entities, the cursor stays where it is and the same
  page is fetched again. Only a stuck page moves the cursor
  (`RefetchedTokensAreRecognised` shows this).
- A response with the quota code still updates the error counter before the
  stop check.
- `max_error_count` and `start_page` are not validated. A ceiling of 0 or
  less halts after the first delete.

## Model

| member | source | states |
|---|---|---|
| Fingerprints.RemoveTbs | DeleteMyHistory.py:86-91 | the fingerprint has exactly the entity's keys minus `tbs`, each with the entity's value; the argument is a value and is not changed |
| Fingerprints.Items | DeleteMyHistory.py:21-23 | the item set holds exactly the (key, value) pairs of the entity |
| Fingerprints.ItemsIdentify | DeleteMyHistory.py:21-23 | two entities have equal item sets if and only if they are equal, so identity does not depend on key order |
| Fingerprints.FingerprintIgnoresTbs | DeleteMyHistory.py:86-91 | two fingerprints are equal if and only if the entities have the same keys apart from `tbs` with the same values |
| Fingerprints.FingerprintStableUnderRefetch | DeleteMyHistory.py:86-91 | changing or adding the token leaves the fingerprint unchanged; stripping twice is stripping once; no fingerprint holds `tbs` |
| Outcomes.Classify | DeleteMyHistory.py:121-135 | a response is a success if and only if it decodes with `no == 0`; no response and an undecodable body are failures with their own reasons |
| Outcomes.NextErrorCount | DeleteMyHistory.py:121-135 | the counter is reset to 0 exactly on success and is one more than before on every failure |
| Outcomes.DeleteStopFlag | DeleteMyHistory.py:179-186 | the stop flag is true exactly for a thread or reply response whose `err_code` is 220034; thread and reply deleters raise exactly when there is no response, no JSON body or no `err_code` key, and a present `err_code` of any other value (an integer or not) means go on; the other modules (lines 250, 276, 303) never stop |
| Config.ModuleConfigOf | DeleteMyHistory.py:57-62 | a module reads its own section, or the default section when it has none |
| Config.Enabled | DeleteMyHistory.py:83 | a module is enabled exactly when its section sets `enable` to true |
| Config.StartPage | DeleteMyHistory.py:93 | the start page is the section's `start_page`, or 1 when it has none |
| Config.MaxErrorCount | DeleteMyHistory.py:62 | the error ceiling is the section's `max_error_count`, or 3 when it has none |
| Config.MissingSettingsTakeDefaults | DeleteMyHistory.py:32-36 | a missing section or setting means disabled, start page 1, at most 3 errors |
| Engine.VisitEntity | DeleteMyHistory.py:112-119 | a known fingerprint is skipped with state and counter untouched; a new one is added to the ledger and exactly one delete call of that entity is appended, on the same page |
| Engine.StuckIffAllKnown | DeleteMyHistory.py:106 | the set difference is empty if and only if every fingerprint on the page is in the ledger |
| Engine.ProcessPage | DeleteMyHistory.py:112-143 | a page keeps the cursor and collect count; the ledger only grows and the earlier delete calls stay as they were; every new delete is of an entity listed on the page, at most one per entity; a page finished without a halt has every fingerprint it lists in the ledger; a halt comes only after a delete on this page |
| Engine.Step | DeleteMyHistory.py:98-146 | one pass makes exactly one collect call and only adds to the state; it ends the run as Exhausted exactly on an empty page; the cursor moves exactly on a non-empty stuck page, by one with nothing else changed; any other end is Halted after a delete of this pass, with the fetched page unchanged; a pass that goes on leaves every fingerprint of the fetched page in the ledger, so fetching the same page again finds it stuck |
| Engine.RunFrom | DeleteMyHistory.py:98-146 | the loop never reports Disabled; it only adds to the state; it makes at most `fuel` collect calls, all of them when it runs out of fuel; an Exhausted run's last collect returned an empty page; a Halted run made at least one delete |
| Engine.RunSpec | DeleteMyHistory.py:81-84 | a disabled module returns at once with no collect and no delete call; an enabled one never reports Disabled |
| Engine.DeletePage | DeleteMyHistory.py:112-143 | the `for` loop over a page, with the source's ledger, counter and response branches, computes ProcessPage |
| Engine.Pass | DeleteMyHistory.py:98-146 | one pass of the `while True` loop (collect, empty-page return, stuck-page skip, page loop) computes Step |
| Engine.Run | DeleteMyHistory.py:81-146 | the whole method, from the enable check to the last pass, computes RunSpec for the module's section |
| RunProperties.TrailingFailuresAreConsecutive | DeleteMyHistory.py:121-135 | the counter's value is the length of the final run of failures: those attempts all failed and the one before them succeeded |
| RunProperties.VisitEntityKeeps | DeleteMyHistory.py:112-143 | one entity keeps the ledger, the trace and the counter consistent, and halts exactly when its delete trips the check |
| RunProperties.ProcessPageKeeps | DeleteMyHistory.py:112-146 | a page keeps the invariant and the cursor; it halts right after the first delete that trips the check, with no delete after it |
| RunProperties.StepKeeps | DeleteMyHistory.py:98-146 | one pass of the loop keeps the invariant; a pass that ends does so as Exhausted or as Halted at the first trip |
| RunProperties.RunFromKeeps | DeleteMyHistory.py:98-146 | the invariant holds at the end of any run from a state that satisfies it, and the state only grows |
| RunProperties.RunGuarantees | DeleteMyHistory.py:93-146 | in a whole run the ledger is the set of fingerprints attempted, each attempted once; the counter is the trailing failure count; a halted run stopped at its first trip (counter at the ceiling or stop flag); any other run never tripped and ends under the ceiling |
| RunProperties.EmptyPageEndsRun | DeleteMyHistory.py:99-104 | an empty page ends the run normally with cursor, ledger, counter and deletes unchanged |
| RunProperties.StuckPageAdvances | DeleteMyHistory.py:106-110 | a non-empty page of known fingerprints moves the cursor on by one with no delete and nothing else changed |
| RunProperties.FreshEntities | DeleteMyHistory.py:112-116 | the entities the page loop picks are listed on the page, no more of them than the page lists, none with a fingerprint already in the ledger |
| RunProperties.ProcessPageDeletesFresh | DeleteMyHistory.py:112-143 | the page loop's delete calls are, in listing order, the page's entities whose fingerprint is new at their turn, up to the halt; all of them when the page ends without a halt |
| RunProperties.ProcessPageProgress | DeleteMyHistory.py:112-119 | a page holding an unknown fingerprint gets at least one delete call and the ledger strictly grows |
| RunProperties.StepProgress | DeleteMyHistory.py:99-119 | a pass that does not end the run either moves the cursor by exactly one with everything else unchanged, or keeps the cursor and strictly grows the ledger |
| RunProperties.HaltCause | DeleteMyHistory.py:137-143 | with a module's own deleter, a halted run hit the error ceiling or, for threads and replies only, got the quota code in its last response |
| Cookies.Split | DeleteMyHistory.py:307 | splitting gives at least one piece, and no piece holds the separator |
| Cookies.SplitJoin | DeleteMyHistory.py:307 | splitting on `;` loses nothing: joining the pieces with `;` gives the input back |
| Cookies.Strip | DeleteMyHistory.py:308 | the stripped segment is no longer than the input and neither starts nor ends with whitespace |
| Cookies.StripLeftSpec | DeleteMyHistory.py:308 | stripping the left end keeps a suffix and drops only whitespace |
| Cookies.StripRightSpec | DeleteMyHistory.py:308 | stripping the right end keeps a prefix and drops only whitespace |
| Cookies.StripSpec | DeleteMyHistory.py:308 | stripping keeps a contiguous middle part, and what it drops at either end is whitespace |
| Cookies.FirstIndex | DeleteMyHistory.py:311 | the index found holds the first `=` of the segment |
| Cookies.ParseSegment | DeleteMyHistory.py:310-311 | a segment without `=` is ignored; otherwise the name holds no `=` and name, `=` and value rebuild the segment |
| Cookies.StoreSegment | DeleteMyHistory.py:308-312 | a segment without `=` after stripping leaves the jar as it was; one with `=` adds exactly the name before its first `=` to the jar's names |
| Cookies.StoreSegments | DeleteMyHistory.py:306-313 | the jar never loses a name, and a header with no `name=value` segment leaves it as it was |
| Cookies.StoreSegmentsKeys | DeleteMyHistory.py:306-313 | the jar holds a name exactly when it held it before or some segment defines it |
| Cookies.StoreSegmentsLastWins | DeleteMyHistory.py:312 | a name's value is the value from the last segment that defines it |
| Cookies.StoreSegmentsKeepsOthers | DeleteMyHistory.py:306-313 | a cookie that no segment defines keeps its old value |
| Cookies.LoadCookie | DeleteMyHistory.py:306-313 | the session's jar becomes the old jar updated by the segments in order |
| Scenarios.RefetchedTokensAreRecognised | DeleteMyHistory.py:98-146 | A succeeds and B fails on page 1; page 1 fetched again with fresh tokens is stuck, page 2 is empty, so the run ends normally with ledger {A, B}, one failure and two deletes |
| Scenarios.ThirdFailureHaltsMidPage | DeleteMyHistory.py:137-143 | three failures in a row halt the run mid-page; the fourth entity is not deleted |
| Scenarios.QuotaCodeHaltsAtOnce | DeleteMyHistory.py:179-186 | a thread delete answered with the quota code halts after one delete, far below the ceiling |

## Left out

- Page scraping in every `_collect` (HTTP requests, HTML parsing, regular expressions) is not modelled. `collect` is an oracle.
- The HTTP posts of every `_delete` and the token fetch `_get_tbs` (an unbounded retry loop over the network) are not modelled. `delete` is an oracle that returns the response and the stop flag. The per-module stop rule is `DeleteStopFlag`.
- Exceptions that escape `run` are not modelled. These include `_delete` failing to read `err_code` for threads and replies when there is no response, no JSON body or no `err_code` key (`DeleteStopFlag` returns None there, and `HaltCause` requires that it never happens) and collectors failing on unexpected markup.
- The `entity['id']` lookups in the log lines of the response branches are not modelled. They raise `KeyError` for entities without `id`, which is a logging defect rather than engine logic.
- Logging and `time.sleep(1)` between deletes are not modelled. There is no clock.
- `sys.exit(-1)` and `sys.exit(0)` are not modelled as process termination. A halt is the `Halted` outcome.
- Engine.Run: the source loop is `while True`, whose end depends on the remote service, so `Run` takes a bound on the number of collect calls and reports `OutOfFuel` when it is reached. `StepProgress` is the per-pass progress statement that takes the place of a termination proof.
- Python's equality quirks are not modelled: `no` equal to `False` or `0.0` would also count as success. The model reads `no` as an optional integer, and `err_code` as absent, an integer, or some other value that equals no integer. `enable` is read as a boolean, not by Python truthiness.
- Cookies.LoadCookie: the `requests` cookie jar is modelled as a name-to-value map that stores each value as given. The `requests` library is not part of this model, so its rewriting of values is not modelled: for a value that starts and ends with `"`, its `set_cookie` deletes every `\"`, so the segment `a="x\"y"` is stored as `"xy"` where the model stores `"x\"y"`. Cookie domains and paths, which `load_cookie` leaves at their defaults, are not modelled either.
- Cookie validation, configuration loading (TOML), `DeleteMyHistory` and `main`, the threaded `run_module_in_thread`, `gui.py` (a Tkinter front end) and `TieBaDeleter.py` (a separate browser-automation script) are not part of this model. They are I/O, user interface or concurrency.
