# openNDS: the client session engine and the codecs of the portal, in Dafny

The project models how openNDS keeps track of the clients of a captive portal and how it sends their data to the
login page.

**The session engine** (client list, authentication states, firewall rules, counters, rate windows). HTTP requests, a
watchdog and a control thread share one linked list of clients; every access is one critical section of the list lock.

- `Session` is the state machine over values: one function for each critical section, with the clock, the exit code of
  BinAuth, the reply of the quota script and the nftables listings as inputs, and the four chains as ordered lists of
  rules. `Session.Run` is a run of critical sections in any order, from the empty list.
- `ClientNodes`, `ClientLists`, `AuthEngine` and `ListOperations` are the C code in place: nodes with their fields and
  links, reference counts, pointer surgery, and the walks over the list. Every method is proved to take the state to
  what `Session` says; `HeapResults` plays whole runs on the nodes, in which the requests keep and return the pointers
  they have pinned, and reads the results over all runs off the nodes and counters in the heap.
- `Invariants`, `Reachable`, `NodeMemory`, `PassSteps`, `Runs` and `Theorems` prove what every run keeps; `PassFilter`,
  `WindowCadence` and `RateSection` what the periodic pass does; `RateLimit` and `CounterRefresh` the 64-bit
  arithmetic, with its wrap-around written out. The wrap shows: a client limited anew at the end of a window below its
  limit gets the largest bucket (`RateSection.LimitUnderRate`).
- `Throttling`, `Grants`, `Thresholds`, `Additions` and `Counting` say in numbers what rates, quotas, times, totals and
  limits the operations leave, field by field, and when they act at all.
- Three expected properties fail, each on a run that is exhibited, and each has its exact condition. Exact rules for
  every active client do not follow from the listed addresses being distinct now
  (`SharedAddresses.DistinctAddressesNotEnough`): they hold in every state of a run if and only if no admission shares
  an address with an active client (`Runs.RunRulesExactIff`), and in one state if and only if no client active in it
  was party to such an admission (`Parties.RulesExactNow`). A pass over one fixed counter snapshot need not be a filter
  of the starting list (`SharedAddresses.PassFailsOnARun`): it is one if and only if the clients behind a shared
  address whose earlier sharers have all gone, with a throttling in between, fare with the lines counted as without
  them (`PassFilter.PassFilters`). And the cadence of the rate window breaks (`WindowRestarts.CadenceFailsOnARun`) if
  and only if a throttle of the client is due and a listing it needs cannot be read (`WindowCadence.Cadence`): the
  window has been restarted by then, and the client stays authenticated. `RunSteps` puts the concrete runs together.

**The codecs** carry the data to the portal: Base64 (section 4 of RFC 4648), percent-encoding (sections 2.1 and 2.3 of
RFC 3986), the query built by the gateway and read by `fas-hid.php`, escaping for HTML attributes, and the joined
query string. The loops fill buffers of any size; what they leave is stated for every input and capacity.
`FasQuery.TransportExact` is exact down to a curiosity: a redirect cut right before the percent-encoded padding still
arrives whole, because the strict decoder of PHP does not insist on padding. `construct_querystring` treats a query
longer than its own buffer as an error, but the redirect then copies the URL into a buffer that is smaller still and
ignores the result; the model follows the code, so the condition mentions that buffer.

`Alphabets`, `Spelling` and `LooseBase64` give the tables and decoders a second definition, by literal alphabets and
for any input.

**Two smaller machines**: the slot accounting of the control socket (`ControlSocket`) and the trusted MAC list
(`TrustedMacs`).

`Basics`, `Bytes`, `Clients` and `Explode` hold what the others share. `dafny verify dfyconfig.toml` checks
everything.

Hypotheses that are stated rather than derived: the pass reads its clock before it takes the lock, so a window that
did not start in the future is a precondition where it matters; the four firewall marks are distinct; nftables
commands take effect, and deleting by address removes every rule of the address. A zero divisor traps in C; the model
goes on with 0, so results about all runs also cover the states behind such a trap, and results about the arithmetic
name the divisors they need.

Where a comment and the code disagree the model follows the code: the comment above `client_list_find_or_append` speaks
of the address alone, the code compares the address and the MAC; docs/source/traffic.rst:277 says that a
`ratecheckwindow` of 0 disables all rate limits, the rate section does not test for it
(`RateSection.OverRateIsLimited`); the pass reports clients freed while it re-validates them, which
`ListOperations.VisitInPass` shows cannot happen.

## Model

| member | source | states |
|---|---|---|
| Runs.StepGood | src/auth.c:411-635 | Every critical section of the list lock keeps the memory, list, client, firewall and conservation invariants; from exact rules it leads to exact rules if and only if it admits nobody at an address where another client is active |
| Runs.RunGood | src/auth.c:1192-1292 | Every state of every run, in any order of requests, pass and control commands, satisfies all the invariants |
| Runs.RunRulesExact | src/fw_iptables.c:763-806 | If no admission ever shares an address with an active client, every authenticated or throttled client has in every state exactly its six rules, return before drop, limited exactly by the limits stored with it |
| Runs.RunRulesExactIff | src/auth.c:1192-1292 | Every active client has exactly its six rules in every state of a run if and only if no admission of the run shares an address with an active client |
| Parties.PartiesLoseRules | src/fw_iptables.c:763-806 | In any state of any run: an active client that was never party to a shared admission is alone at its address and has its six rules; a party alone at its address has no rule in any chain |
| Parties.RulesExactNow | src/fw_iptables.c:763-806 | In one state of a run all rules are exact if and only if no client active in it was party to a shared admission |
| Theorems.NodesLiveExactlyWhileNeeded | src/client_list.c:507-568 | Reference counts are the outstanding pins; nothing is freed twice, or while listed or pinned; off-list unfreed nodes are exactly the dead, pinned ones; without pins the allocated nodes are the listed ones |
| HeapResults.NodeFieldsExact | src/client_list.c:507-568 | In the heap of every reachable list: refcount is the number of holders, dead says exactly that a node is off the list, a dead node is held, and without holders every unfreed node is linked |
| HeapResults.ChainAndCountersExact | src/client_list.c:133-201 | In the heap of every reachable list: the chain ends with null, meets no node twice and carries growing ids; the counters of the C code count its nodes, the clients ever listed and the authentications |
| HeapResults.Perform | src/auth.c:1192-1292 | Any one of the ten critical sections, on the nodes, takes a list reached by a run to the list reached by the run one operation longer; the nodes allocated afterwards were allocated before or are fresh, and no node that is pinned afterwards was freed |
| HeapResults.PerformAll | src/auth.c:1192-1292 | Every run can be played on the nodes from the empty list, with the requests keeping and returning the pointers they pinned; the list it ends with is reached by the run |
| RequestPins.StepPins | src/auth.c:1162-1292 | Authentications, deauthentications and the pass leave every pin alone |
| HeapResults.Start | src/client_list.c:53-85 | The list every run starts from, with no node |
| Theorems.NoStaleAccess | src/fw_iptables.c:793-806 | In every reachable state each per-client rule in the four chains names the address of a listed client that is authenticated or throttled |
| Theorems.LimiterBitsMirrorActions | src/auth.c:907-948 | In every reachable state the bits are in 0..3, 0 before a session, each set exactly when the last limiter action of its direction was ENABLE, and clear under a zero bucket ratio |
| Theorems.ResetOfThrottled | src/http_microhttpd.c:624-646 | The reset of authenticate_client on a throttled client keeps the invariants if and only if the client is limited in neither direction |
| Theorems.ByteDifferencesNeverWrap | src/auth.c:871-872 | The byte differences of the rate check and of the limiter are never negative: between critical sections, at any point of a pass after its refresh, before and after each throttle of a turn, and where a throttle or an authentication sets up the limiters |
| Theorems.MeasuredRateExact | src/auth.c:867-876 | With a window that did not start after the clock of the pass, the rate measured for the client a turn finds, after the refresh, the earlier turns and its own throttles, is floor(bytes / (125 * duration)) |
| Theorems.AuthenticationsConserved | src/auth.c:1206-1208 | authenticated_since_start is the number of active listed clients plus completed deauthentications (modulo 2^32); client_id - 1 is client_count plus deletions; client_count is the length, at most maxclients |
| Theorems.LookupsAreUnique | src/client_list.c:327-362 | The lookups by id and by address with any spelling of the MAC find exactly the client they are made for |
| Theorems.SharedAddressLosesRules | src/fw_iptables.c:793-806 | With two authenticated clients at one address, deauthenticating one leaves the other authenticated without a rule |
| SharedAddresses.DistinctAddressesNotEnough | src/auth.c:576-582 | A run, for any two MACs and any address, after which all listed addresses are distinct and an authenticated client has no rule |
| SharedAddresses.SharedAddressChangesPass | src/auth.c:708-849 | Any list with three such clients, two of them at one address, on which a pass over one fixed snapshot deletes a client that its own refreshed counters would keep |
| SharedAddresses.PassFailsOnARun | src/auth.c:699-849 | A run into such a list, for any three MACs and any two addresses, and the pass that deletes the wrong client |
| PassFilter.PassFilters | src/auth.c:699-849 | With one snapshot a pass leaves, in order, exactly the clients whose refreshed values survive the pure test Fate, in the state Fate names, if and only if every late client has the same fate with the lines of the snapshot counted; late is a client behind sharers of its address that all go, with a throttling after them |
| PassFilter.PassFiltersUsually | src/auth.c:699-849 | So it does whenever the listed addresses are distinct, or nobody is throttled in the pass |
| PassFilter.TurnExact | src/auth.c:716-849 | From any list one turn does to its client what Fate says, refreshes the counters of the others only if it throttles, and changes nothing else of them |
| PassFilter.DeauthAllFilters | src/auth.c:1273-1292 | At shutdown exactly the authenticated clients leave the list |
| WindowCadence.Cadence | src/auth.c:708-967 | Over any stretch of any run in which a client stays listed in one state: after n rate checks, counted from the start of its window, the counter is W - n mod W and n / W windows have been started, if and only if no throttle of the client that was due has failed; then the window starts at the check before the last n mod W |
| WindowCadence.StepFollows | src/auth.c:699-967 | Every critical section leaves the window of every client past authentication alone, except a pass, which does to it what the checks and failed throttles of its turn say |
| WindowCadence.ReadableNeverFails | src/auth.c:767-834 | No throttle fails when the passes can read the listings they ask for, or there is no throttle rate |
| WindowCadence.SettledInRun | src/auth.c:524-528 | In every state of every run the window counter of a client past authentication is within 1..W; of a trusted client that waits for its first check it may be 0 |
| Throttling.ThrottleSetsRate | src/auth.c:784-797 | A throttle that is due puts the client at the throttle rate of its direction, whether or not the listings can be read; its other rate and both quotas stay, and it is not due again |
| Throttling.TurnRates | src/auth.c:716-834 | A turn gives its client the throttle rate in every direction that is due, and no other rate; the rates and quotas of the others stay |
| Throttling.PassThrottles | src/auth.c:699-834 | After any run and any pass that can read its listings, an active client that has used up a quota for which there is a throttle rate is at that rate, or gone; its quotas stay |
| Grants.AuthorizeOutcome | src/auth.c:431-567 | The result, the state, and what an authentication grants: in each direction the positive number of its own reply field, else the value there was, else the default; the session end by the reply unless given explicitly; zeroed totals, a new window, and limits where they start at once |
| Grants.BlockOutcome | src/auth.c:584-615 | A throttled client starts a window from its totals and is limited where limiting starts at once; when the counters cannot be read its state, its bits and its limits stay |
| Grants.ChangeTable | src/auth.c:411-635 | Every pair of states that is not an authentication, a throttling or a deauthentication of an authenticated client is refused with -1 and changes nothing |
| Grants.UnlistedRefused | src/auth.c:1162-1212 | An id that is not listed is refused with -1 and changes nothing |
| Grants.ControlGrants | src/ndsctl_thread.c:616-639 | ndsctl auth of a waiting client: the values given there, overridden by a positive reply, replaced by the default where zero |
| Grants.HttpGrants | src/http_microhttpd.c:624-646 | Reset and authentication of a waiting client by the HTTP server: what the reply assigns, else the defaults, whatever the client had |
| Grants.ResetExact | src/http_microhttpd.c:624-646 | The fields the reset clears, and no other; an authenticated or trusted client keeps everything |
| Thresholds.FateTable | src/auth.c:716-849 | The decisions of a turn in order, in numbers: idle and session times, the quota check of each direction, and what each leads to |
| Thresholds.QuotaExact | src/auth.c:767-829 | A quota of n is reached with 1024 * n bytes of its direction; 0 is none |
| Thresholds.WindowBytes | src/auth.c:867-1048 | A rate check changes the window, the measured rates and the limits, and no other field; where it ends a window the next one starts from the totals |
| Additions.AddExact | src/client_list.c:133-268 | A client is appended exactly for a well-formed MAC, a valid and leased address, room, a token, and no client with the address and MAC; its fields are the given and initial ones; else nothing changes |
| Additions.AddPinnedExact | src/client_list.c:270-299 | The pinned form adds the same and pins the client of the request, exactly when there is one |
| Additions.FindPinExact | src/http_microhttpd.c:487-494 | The lookup of a request pins the client at its address with its MAC, in any spelling, exactly when there is one |
| Counting.RefreshCounts | src/fw_iptables.c:886-1014 | For the first client at an address, in each direction: total bytes and packets are those of the last raising line, the previous ones the totals just before it; the activity time moves exactly on an upload raise; all else stays |
| Counting.RaisedOnce | src/fw_iptables.c:937-1003 | A client raised by one line, with more packets than before, has an average packet of (line.bytes - old bytes) / (line.packets - old packets) + 1 in the limiters |
| WindowRestarts.TurnRestarts | src/auth.c:584-595 | A turn whose throttle is due and cannot read its listings leaves the client authenticated with the counter at W - 1, whatever it was |
| WindowRestarts.CadenceFailsOnARun | src/auth.c:584-595 | A run, for any MAC and any address, in which the counter is not W - n mod W after two checks |
| RateSection.RateSectionExact | src/auth.c:907-1048 | The decision table of the rate section in both directions: limiting starts at or over the rate, ends with the window below the rate if bursting is unrestricted, and a client still limited at the end of a window gets a new limit from the traffic just measured |
| RateSection.OverRateIsLimited | src/auth.c:907-967 | A client at or over its rate is limited after the check, also with a window of 0 |
| RateSection.LimitOverRate | src/auth.c:907-948 | A client that starts being limited gets the largest limit that fits its rate, and as its bucket the measured excess over it, which does not wrap |
| RateSection.LimitUnderRate | src/auth.c:972-1048 | A client limited anew at the end of a window below its limit gets the largest bucket, because the excess wraps |
| WindowCadence.TickWindow | src/auth.c:954-967 | One rate check counts the window down or restarts it, whatever limiter actions it takes |
| Reachable.AuthClientGood | src/auth.c:431-567 | An authentication keeps every invariant: when it succeeds, when BinAuth refuses, and when the counters cannot be read and the rules are taken back |
| Reachable.AuthClientExact | src/auth.c:446-567 | An authentication keeps the rules exact if and only if no other active client has the address, or BinAuth refuses |
| Reachable.SharedAdmissionBreaks | src/fw_iptables.c:763-790 | An admission at the address of an active client always breaks the exact rules, also when it fails and withdraws |
| NodeMemory.DeauthGood | src/auth.c:576-582 | A deauthentication keeps every invariant and exact rules |
| NodeMemory.DeleteKeepsMemory | src/client_list.c:507-548 | Deletion keeps the memory invariant: a pinned node becomes dead, an unpinned one is freed |
| NodeMemory.UnpinMemory | src/client_list.c:550-568 | Unpinning keeps the memory invariant: the last unpin of a dead node frees it |
| NodeMemory.FindOrAppendGood | src/client_list.c:231-245 | Finding or appending keeps every invariant and yields a client with the requested address and MAC |
| PassSteps.PassTurnGood | src/auth.c:708-1048 | A turn of the pass keeps every invariant, and exact rules |
| PassSteps.ThrottleGood | src/auth.c:784-797 | Throttling keeps every invariant and exact rules, also when the counters cannot be read |
| Runs.PassGood | src/auth.c:699-1050 | A whole pass keeps every invariant, and exact rules |
| Invariants.CheckRatesOk | src/auth.c:867-1048 | The rate section never toggles a limiter bit the wrong way and keeps counters, identity, state and the rules of the client |
| RateLimit.PacketsPerMinuteExact | src/fw_iptables.c:597-599 | Without overflow in the scaling, 8 * average * limit <= rate * 61440 < 8 * average * (limit + 1) |
| RateLimit.LimitMeetsRate | src/fw_iptables.c:588-617 | The limit installed for a client whose traffic grew is the largest number of average packets that fits its rate, or the cap of 300000 if that is smaller |
| RateLimit.BucketDoesNotWrap | src/fw_iptables.c:600-601 | With a measured rate at least the rate of the client the bucket subtraction does not wrap |
| RateLimit.BucketExact | src/fw_iptables.c:588-617 | The limit and bucket of a client whose traffic grew, whatever its measured rate: the excess over the limit in limits, plus 2^64 before the division when the rate is below |
| RateLimit.WrappedBucketIsMax | src/fw_iptables.c:600-617 | Below the limit the bucket is the largest one, unless the product with the ratio wraps or the largest bucket is out of reach |
| RateLimit.LimitBucketBounds | src/fw_iptables.c:604-617 | In every case, wrapped or not, min(5, max) <= bucket <= max and the limit is at most 300000 |
| RateLimit.CappedExact | src/fw_iptables.c:604-617 | Where the product with the ratio does not wrap, the bucket is that product, at least 5 and at most the largest bucket |
| RateLimit.LimitWithoutTraffic | src/fw_iptables.c:588-593 | Without traffic to average over, the limit is the largest that fits the rate with packets of 1500 bytes, and the bucket 5 times the ratio |
| RateLimit.BytesWithoutPackets | src/fw_iptables.c:687-697 | Where the upload division of the C code has a zero divisor, the model goes on with packets of one byte |
| RateSection.BucketOverRate | src/auth.c:907-967 | A client over its rate that is limited by a check stores the excess in whole limits times the ratio, within 5 and the largest bucket |
| RateLimit.AverageRateExact | src/auth.c:867-874 | Two divisions are one: bytes / 125 / duration is bytes / (125 * duration) |
| CounterRefresh.RefreshMax | src/fw_iptables.c:917-1013 | A refresh sets the bytes of the first client with an address to the maximum of the old value and its lines, and leaves the others alone |
| CounterRefresh.RefreshAt | src/fw_iptables.c:886-1014 | What a refresh does to one client depends on that client alone, and on whether it is the first with its address |
| CounterRefresh.RefreshIdempotent | src/fw_iptables.c:886-1014 | Refreshing twice from one snapshot is refreshing once |
| CounterRefresh.RefreshOk | src/fw_iptables.c:938-943 | A refresh keeps previous values and window starts at or below the totals |
| Firewall.ViewAuthenticate | src/fw_iptables.c:770-778 | Authenticating changes the rules of one address only: mark rules at the head of their chains, return before drop at the tail |
| Firewall.ViewDeauthenticate | src/fw_iptables.c:800-803 | Deauthenticating removes every rule of one address and no other |
| Firewall.ViewReplaceDownload | src/fw_iptables.c:628-660 | Replacing the return rule changes the rate chain of one address only |
| ClientNodes.Client.constructor | src/client_list.c:154-186 | A new node has the next id, the given addresses, the state the trusted list decides, and zero counters and limits |
| ClientNodes.Client.AverageDownload | src/fw_iptables.c:588-602 | The download limit and bucket before the caps, with wrap-around |
| ClientNodes.Client.AverageUpload | src/fw_iptables.c:687-697 | The same for upload, which does not ask whether the packet count grew |
| ClientNodes.Client.Cap | src/fw_iptables.c:604-617 | Ratio, minimum bucket, packet cap and maximum bucket, in this order |
| ClientNodes.Client.LimitDownload | src/fw_iptables.c:573-665 | What the download limiter does to the node: stored limit on ENABLE, zero on DISABLE, nothing without a rate |
| ClientNodes.Client.LimitUpload | src/fw_iptables.c:672-760 | The same for upload |
| ClientNodes.Client.Grant | src/auth.c:446-528 | The parameters of a new session: zeroed counters, session end unless explicit, assigned or default rates and quotas, new window; what each value is in the end, Grants.AuthorizeOutcome says |
| ClientNodes.Client.CountLine | src/fw_iptables.c:937-1003 | One accounting line raises the bytes of its direction, keeping the previous values; only upload sets the activity time; what a listing and a refresh come to, Counting.RefreshCounts says |
| ClientNodes.Client.MeasureRates | src/auth.c:867-876 | The average rates since the window start |
| ClientNodes.Client.Clear | src/http_microhttpd.c:624-646 | The reset before an HTTP authentication |
| ClientNodes.Client.ApplyPreset | src/ndsctl_thread.c:620-634 | What ndsctl auth sets before authenticating |
| ClientLists.ClientList.FindById | src/client_list.c:348-362 | The first node with the id, by walking the links; null if there is none |
| ClientLists.ClientList.FindByIp | src/client_list.c:369-383 | The first node with the address |
| ClientLists.ClientList.Find | src/client_list.c:327-341 | The first node with the address and, without case, the MAC |
| ClientLists.ClientList.FindAndPin | src/http_microhttpd.c:487-494 | A found client gets one more reference |
| ClientLists.ClientList.Unpin | src/client_list.c:550-568 | One reference less; the last one of a dead node frees it |
| ClientLists.ClientList.FreeNode | src/client_list.c:545-548 | A node can be freed only while allocated and off the list |
| ClientLists.ClientList.UnlinkNode | src/client_list.c:508-536 | The pointer surgery removes exactly the node from the chain, keeps the order of the rest, and changes nothing if the node is not listed |
| ClientLists.ClientList.Delete | src/client_list.c:507-548 | The node leaves the list; it is freed, or marked dead while it is pinned |
| ClientLists.ClientList.Append | src/client_list.c:133-201 | The new node becomes the last one, if the list is not full and a token can be drawn |
| ClientLists.ClientList.FindOrAppend | src/client_list.c:231-245 | The listed client with the address and MAC, else a new one |
| ClientLists.ClientList.AddClientPinned | src/client_list.c:270-299 | After the address and DHCP checks, the client found or added, pinned |
| ClientLists.ClientList.AddClient | src/client_list.c:247-268 | The same without a pin |
| ClientLists.ClientList.CountersUpdate | src/fw_iptables.c:885-1014 | Both listings are applied line by line; a listing that cannot be started ends the update, with the first one already applied |
| ClientLists.ClientList.CheckRates | src/auth.c:867-1048 | The rate section of a turn, in place |
| ClientLists.ClientList.ExpireDownload | src/auth.c:972-1011 | At the end of a window download limiting ends or is refreshed |
| ClientLists.ClientList.ExpireUpload | src/auth.c:1016-1048 | The same for upload |
| ClientLists.ClientList.constructor | src/client_list.c:53-85 | The empty list |
| AuthEngine.Authorize | src/auth.c:431-567 | Preauthenticated to Authenticated: BinAuth, rules, grant, counters, limiters, state; or refusal, or withdrawal of the rules |
| AuthEngine.Block | src/auth.c:584-615 | Authenticated to AuthBlocked: new window, counters, limiters, state; no state change if the counters cannot be read |
| AuthEngine.Revoke | src/auth.c:576-582 | Deauthentication: the rules and then the node go |
| ListOperations.AuthChangeState | src/auth.c:411-635 | The whole transition table; AuthBlocked and Trusted have no way out |
| ListOperations.AuthClient | src/auth.c:1192-1212 | Authentication by id, counted when it succeeds |
| ListOperations.DeauthClient | src/auth.c:1162-1183 | Deauthentication by id |
| ListOperations.ControlAuth | src/ndsctl_thread.c:616-639 | A preauthenticated client gets its preset values and is authenticated; any other is left alone |
| ListOperations.HttpReset | src/http_microhttpd.c:624-646 | The reset, on a preauthenticated or throttled client; no node is allocated or freed |
| ListOperations.CheckQuota | src/auth.c:767-834 | A reached quota cuts the client off, or throttles it if it is not at the throttle rate yet; the rates it leaves, Throttling.ThrottleSetsRate says |
| ListOperations.PassTurn | src/auth.c:716-1048 | One iteration: idle, session end, quotas, throttling and rates |
| ListOperations.RefreshClientList | src/auth.c:699-1050 | The pass terminates, visits every node of the starting list exactly once and in order, touches allocated nodes only, and takes the state to Session.Pass |
| ListOperations.VisitInPass | src/auth.c:708-714 | The lookup by id always finds the node again, and the successor read before the turn is still the next node after it |
| ListOperations.DeauthAll | src/auth.c:1273-1292 | The walk at shutdown visits every node once and takes the state to Session.DeauthAll |
| Base64.EncodeLength | src/http_microhttpd_utils.c:214-241 | The encoding of n bytes has 4 * ceil(n / 3) characters |
| Base64.B64Encode | src/http_microhttpd_utils.c:201-247 | Succeeds exactly when the encoding is shorter than the buffer; otherwise the whole groups that fit are left, with a NUL; the rest of the buffer is untouched |
| Base64.B64Decode | src/http_microhttpd_utils.c:249-291 | Reads up to the NUL or one past slen, counts positions in fours, and writes the decoded bytes up to the last group that leaves room for the NUL |
| Base64.RoundTrip | src/http_microhttpd_utils.c:201-291 | Decoding what was encoded gives the bytes back, then zero bytes up to a multiple of three; in a smaller buffer the whole groups that fit |
| Base64.DecodeEncoded | src/http_microhttpd_utils.c:257-285 | The same for any earlier contents of the 32-bit shift register |
| Base64.StrictRoundTrip | forward_authentication_service/fas-hid/fas-hid.php:70-75 | A strict decoder takes the encoding back to the same bytes |
| Base64.CutEncoding | forward_authentication_service/fas-hid/fas-hid.php:71-75 | An encoding cut short decodes to the text if and only if just its padding is missing, and never to more bytes |
| Alphabets.LetterExact | src/http_microhttpd_utils.c:201-212 | The letters of the encoder are the alphabet of RFC 4648 in order |
| Alphabets.ValueExact | src/http_microhttpd_utils.c:249-285 | The decoder reads exactly that alphabet, and padding as zero |
| LooseBase64.DecodedExact | src/http_microhttpd_utils.c:257-285 | On any text, letters or not: each group of four positions is a number in base 64 whose bytes are written |
| UrlCode.UrlEncode | src/http_microhttpd_utils.c:160-198 | Succeeds exactly when the encoding is shorter than the buffer; otherwise leaves the encoding of the longest prefix that fits, with a NUL |
| UrlCode.UrlDecode | src/http_microhttpd_utils.c:115-154 | The buffer and the result code for every input: decoded, overflow, or malformed, with what was decoded so far and a NUL; what is decoded, Spelling.DecodeExact says digit by digit |
| UrlCode.RoundTrip | src/http_microhttpd_utils.c:115-198 | Decoding an encoding returns every byte string; in a smaller buffer it overflows after as many bytes as fit |
| UrlCode.DecodeSucceeds | src/http_microhttpd_utils.c:129-151 | Decoding succeeds exactly on well-formed input whose decoding fits, agrees with rawurldecode, and otherwise leaves a prefix |
| Spelling.DecodeExact | src/http_microhttpd_utils.c:115-154 | The decoder gives a text if and only if its input spells the text, byte by byte, as itself or as a percent sign and two digits out of 0123456789abcdef or 0123456789ABCDEF, and there is room |
| Spelling.RawDecodeExact | forward_authentication_service/fas-hid/fas-hid.php:273-281 | The decoder without a buffer, on any input: escapes in either case are read, a percent sign that starts none stays |
| Spelling.SpellingDecodes | src/http_microhttpd_utils.c:115-154 | Every spelling of a text, in any mixture of cases, is decoded to it by both decoders |
| Spelling.DecodeFails | src/http_microhttpd_utils.c:129-151 | Where the decoder fails it has decoded the text before that place: as much as fits, or up to a percent sign that starts no escape |
| Spelling.EncodedByte | src/http_microhttpd_utils.c:171-192 | Letters, digits and -_.~ stand for themselves; every other byte is written as its escape in lower case |
| Spelling.EncodeSpells | src/http_microhttpd_utils.c:160-198 | An encoding spells its text, so re-casing its digits does not change what it decodes to |
| UrlCode.EncodeCharacters | src/http_microhttpd_utils.c:171-192 | An encoding consists of unreserved characters and percent signs |
| UrlCode.CutEncoding | src/http_microhttpd.c:1350-1352 | An encoding cut short decodes to a shorter prefix, or to something with a percent sign |
| FasGateway.ConstructQuery | src/http_microhttpd.c:1512-1551 | The buffers of the gateway end up with the query of the message, or with the empty string when it does not fit |
| FasGateway.EncodeText | src/http_microhttpd.c:1512-1537 | The Base64 buffer is always large enough |
| FasGateway.EscapeText | src/http_microhttpd.c:1541-1543 | The buffer of three bytes a character and a NUL never overflows |
| FasGateway.SafeSnprintf | src/safe.c:82-102 | The text cut to the buffer, and an error when it was cut |
| FasQuery.TransportExact | src/http_microhttpd.c:1512-1551 | The portal receives a message if and only if neither it nor the query nor the URL of the redirect is cut, or the cut takes exactly the padding |
| FasQuery.CutArrives | forward_authentication_service/fas-hid/fas-hid.php:273-281 | A cut query gives the message only if just the padding is missing, and never more bytes |
| FasQuery.ArrivesExact | src/http_microhttpd.c:1512-1551 | The condition in numbers: text, and URL with query, of at most 8191 characters, or a cut right where the padding starts |
| FasQuery.FirstFasPart | forward_authentication_service/fas-hid/fas-hid.php:273-281 | The first part that starts with fas= is decoded, wherever it stands; without one there is nothing |
| FasQuery.PlusRestores | forward_authentication_service/fas-hid/fas-hid.php:70-70 | A Base64 text whose plus signs became spaces is restored |
| FasQuery.ReadExact | forward_authentication_service/fas-hid/fas-hid.php:79-82 | A piece is read up to its second equals sign |
| FasQuery.PairsExact | forward_authentication_service/fas-hid/fas-hid.php:76-94 | The portal reads back every name and value if and only if no value contains the separator or an equals sign |
| FasQuery.PrintedPieces | forward_authentication_service/fas-hid/fas-hid.php:76-76 | Splitting the printed items gives the pieces of each item and one empty piece at the end |
| Explode.SplitConcat | forward_authentication_service/fas-hid/fas-hid.php:76-79 | Splitting around a separator that cannot overlap itself splits both sides |
| Portal.Script.Parse | forward_authentication_service/fas-hid/fas-hid.php:69-96 | The loop of the script leaves in every variable the value of the last piece with its name |
| Portal.VariableExact | forward_authentication_service/fas-hid/fas-hid.php:79-94 | A variable is what the gateway meant if and only if its value contains neither the separator nor an equals sign, whatever the other values contain, as long as no later piece has its name; the gateway URL is decoded |
| Portal.PortalRecovers | forward_authentication_service/fas-hid/fas-hid.php:69-96 | From the message to the variables: from a message that arrives, a variable whose name no later piece has is recovered if and only if its value is safe |
| Portal.ItemExact | forward_authentication_service/fas-hid/fas-hid.php:79-96 | An item of any list sets its variable to its value if and only if the value is safe, as long as no later piece has its name |
| Portal.CustomExact | forward_authentication_service/fas-hid/fas-hid.php:79-96 | So do the custom items, also for the variables that are no fields of the gateway |
| Portal.NeverNamed | forward_authentication_service/fas-hid/fas-hid.php:52-96 | A variable that no piece names keeps its initial value: six are empty, the others not set |
| Portal.NamesExact | src/http_microhttpd.c:1512-1535 | The names of the query in its order, and of the variables of the script in its order |
| Portal.SeparableNotTaken | forward_authentication_service/fas-hid/fas-hid.php:76-94 | No later piece has the name when the later items are free of the separator and no custom item has the name |
| Portal.EncodedIsSafe | src/http_microhttpd.c:1483-1484 | Percent-encoded values, such as the gateway URL and the original URL, are never misread |
| HtmlEscape.HtmlAttrEscape | src/http_microhttpd.c:1749-1809 | NULL exactly for NULL or a control character; otherwise the second pass fills exactly the buffer the first one measured |
| HtmlEscape.Measure | src/http_microhttpd.c:1761-1777 | The first pass computes the length of the escaped text, or finds a control character |
| HtmlEscape.RoundTrip | src/http_microhttpd.c:1782-1808 | Unescaping gives the text back |
| HtmlEscape.NoRawMarkup | src/http_microhttpd.c:1782-1808 | No quote, angle bracket or control character is left |
| HtmlEscape.EntityTable | src/http_microhttpd.c:1782-1808 | The five entities; every other character stands for itself |
| GetQuery.GetQuery | src/http_microhttpd.c:1931-1980 | The buffer holds the exact join or the empty string, never a cut join, and nothing is written past it |
| GetQuery.JoinSplits | src/http_microhttpd.c:1953-1975 | The elements of the slots that are not null can be read back from the join; behind a null first slot there is an empty piece before them |
| GetQuery.TooLong | src/http_microhttpd.c:1946-1961 | An element is rejected only if the whole join does not fit, or the separator alone does not |
| GetQuery.FitsExact | src/http_microhttpd.c:1931-1961 | In numbers: without elements anything fits, else a join of at most 8191 characters with a separator of at most 8191 |
| TrustedMacs.Config.CheckMacFormat | src/conf.c:426-445 | Exactly six pairs of hexadecimal digits with colons |
| TrustedMacs.Config.AddToTrustedMacList | src/conf.c:592-626 | A new MAC goes to the head in lower case; a malformed or listed one changes nothing and gives 1 |
| TrustedMacs.Config.RemoveFromTrustedMacList | src/conf.c:632-668 | The MAC is unlinked and the others keep their order; a malformed or unlisted one changes nothing and gives -1 |
| TrustedMacs.Config.IsTrustedMac | src/conf.c:694-716 | Membership, without case |
| TrustedMacs.RunTidy | src/conf.c:592-668 | No run of additions and removals lists a MAC twice in any case |
| TrustedMacs.SetRefinement | src/conf.c:592-668 | The list is a set of lower-case MACs; the result is 0 exactly when the set changes |
| Alphabets.MacExact | src/conf.c:426-445 | A MAC is five colons, each after two hexadecimal digits in any case, and two more digits |
| Alphabets.CaseExact | src/conf.c:592-716 | Without case: each of the 26 capitals is its small letter, every other character itself |
| TrustedMacs.RemoveUndoesAdd | src/conf.c:592-668 | Removing a MAC just added restores the list |
| ControlSocket.Thread.MaxEvents | src/ndsctl_thread.c:221-229 | The bound given to epoll_wait is within the events array, and the counter itself while that is within 1..30 |
| ControlSocket.Thread.OnEvent | src/ndsctl_thread.c:245-345 | One event: shutdown, failed descriptor, new connection or command; whether the thread goes on, ControlSocket.GoesOn says |
| ControlSocket.Thread.OnBatch | src/ndsctl_thread.c:243-346 | The loop over a batch, left at once when the thread stops |
| ControlSocket.BatchAccounted | src/ndsctl_thread.c:243-346 | After every event of every batch the counter is 1 plus the open connections and within 1..30, and the thread accepts exactly below 30, unless it has stopped |
| ControlSocket.RunAccounted | src/ndsctl_thread.c:203-347 | The same over whole runs, at every epoll_wait and after every event of every batch; the room offered to epoll_wait is the counter itself |
| ControlSocket.GoesOn | src/ndsctl_thread.c:243-346 | From an accounted state the thread goes on if and only if the event is not the shutdown descriptor, a command to stop, a failed accept or add below the cap, or a failed resume at the cap; then exactly the connection of the event is closed, or the new one open |
| ControlSocket.RunsOn | src/ndsctl_thread.c:203-347 | Without those events the thread runs and is accounted for, over whole runs |

## Left out

- The shell scripts, nft, popen and posix_spawn: exit codes, replies and accounting lines are inputs, rules are updates
  of the modelled chains; failing nft commands are not modelled (the code ignores their results).
- The packet and byte counters inside the rules, which a replaced rule takes over from the client.
- The parsing of nft listings: a listing arrives as its lines with the authentication mark and a valid address.
- The overrides of `authenticate_client` after the authentication (src/http_microhttpd.c:694-718), which run outside
  the lock. Its reset is an operation of its own.
- Tokens, hid, cid files, `custom`, `client_type` and the other strings of a client; hashing and encryption.
- The lookups by token, by MAC alone and by any of the three, which only read.
- The parsing of the arguments of `ndsctl auth`, of the preemptive list and of BinAuth; the values they set are inputs.
- The widths of `int` and `unsigned` fields: ids, counters of the list and window counters are unbounded, except
  `authenticated_since_start`, which wraps. 64-bit byte counts, rates, quotas and limits wrap as in C.
- Memory exhaustion: allocations succeed.
- RunRulesExact: needs exclusive admissions over the whole run; DistinctAddressesNotEnough shows why, RunRulesExactIff and RulesExactNow give the exact conditions.
- PassFilters: the listings read for the throttles of a pass are those read at its start; listings that differ are not covered.
- Cadence: needs a window of at least one check; with a window of 0 every check starts a window (TickWindow).
- RunGood: throttled clients reach `authenticate_client` as well (src/http_microhttpd.c:505-512, src/http_microhttpd.c:624-638), and HttpReset resets them; that reset is not an operation of a run, so the results over runs about limiter bits, stored limits and window counters do not cover it. ResetOfThrottled says exactly when it keeps the invariants.
- MeasuredRateExact: needs a window that did not start after the clock of the pass, and a difference below 2^64.
- PortalRecovers: the query string is taken to be what follows the first question mark of the redirect, whose base has none; the fallback of `fas_query_value` to the decoded parameters is not modelled.
- StrictRoundTrip: white space, which PHP skips, is not modelled; the texts concerned contain none.
- The custom parameters, variables, images and files arrive as their items; main.c joins them with the same separator.
- `construct_querystring` at the other security levels, the encrypted query, and the PHP pages behind the parse.
- `htmlentityencode`, and the signed-char codecs of ndsctl.c.
- libmicrohttpd itself: `get_query` starts from the collected slots.
- BatchAccounted: ends when the thread stops; descriptors that other threads open are not modelled.
- The endless loop around `epoll_wait` is a sequence of batches.
- Status pages, JSON, configuration loading, signals, startup and logging.
