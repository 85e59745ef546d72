# CorrelationRecorder core in Dafny

This project models the core of the CorrelationRecorder JMeter plugin. The plugin's
recording proxy control (`CorrelationProxyControl`) and its legacy correlation engine
(`CorrelationEngine`) do four jobs, and each has its own module.
Source paths are relative to the repository root; `P` abbreviates
`src/main/java/com/blazemeter/jmeter/correlation/CorrelationProxyControl.java`.

- **DeliveryBuffer** (`delivery_buffer.dfy`): the ordered delivery buffer.
  - Every capture thread registers a pending transaction when it starts.
  - It fills the transaction in when it has the request and result.
  - It closes the transaction when it ends.
  - Only the leading run of completed transactions is handed on, so recorded samplers keep the order in which their threads started.
  - A run of buffer calls in any interleaving is a sequence of `Call`s (`Run`).
- **CookieTracker** (`cookie_tracker.dfy`): the cookie tracker.
  - It keeps the last known cookie jar, one cookie per (name, domain).
  - It parses the request `Cookie` header to find cookies not seen before. Those are the cookies that get a "Set cookie" pre-processor.
  - It feeds the jar from the `Set-Cookie` response lines.
  - In this version of the source, the entry point `addMissingCookiesChildren` (P:418) is private and nothing calls it. So none of this runs during recording; the model describes what it would do if called.
- **CorrelationEngine** (`correlation_engine.dfy`): the correlation engine.
  - It flattens the enabled rule groups.
  - It attaches one shared context per context class.
  - It resets its state.
  - Processing a sample runs the replacements, then the context updates, then the extractors. The extractors only run when the response content type passes the filter.
- **GroupMerge** (`group_merge.dfy`): merging a loaded template into the current configuration.
  - The comma-separated component and filter lists are merged as cleaned unions.
  - Colliding group ids are renamed `id (n)`.
  - `appendCorrelationRules` (P:661) merges rule lists as an insertion-ordered union. Nothing in this version of the source calls it: `append` adds loaded groups whole.

Supporting modules:

- `wrappers.dfy`: `Option` and `Result`.
- `samples.dfy`: samplers and sample results, reduced to the fields the core reads.
- `rules.dfy`: rule parts, rules, groups and the enabled-rule flattening.
- `sequences.dfy`: distinctness, subsequences and insertion-ordered de-duplication. De-duplication is what `LinkedHashSet` does.
- `java_strings.dfy`: the `java.lang.String` behaviour the core relies on:
  - `indexOf`;
  - `split` with a literal delimiter, dropping trailing empty pieces;
  - `trim`;
  - `replace` of one character;
  - ASCII lower-casing;
  - decimal rendering.

Code the core cannot see becomes a function parameter:

| parameter | stands in for |
|---|---|
| `registry` | the component registry's context factory. The model assumes it returns an instance of the requested class, so a new context gets the requested kind; this is what keeps one context per class. |
| `reset`, `update` | a context's `reset` and `update` |
| `act` | a rule part's `process` on the variable store |
| `matcher` | the regular-expression matcher; `None` means a malformed pattern |
| `eq` | `ComparableCookie.equals` |
| `order` | a `HashSet`'s iteration order |

## Model

| member | source | states |
|---|---|---|
| DeliveryBuffer.StartedProxy | src/main/java/com/blazemeter/jmeter/correlation/CorrelationProxyControl.java:299-301 | A new thread gets a fresh record at the end of the buffer. A known thread keeps its position, and its record is reset. Other records are untouched and handles stay unique. |
| DeliveryBuffer.DeliverSampler | src/main/java/com/blazemeter/jmeter/correlation/CorrelationProxyControl.java:293-297 | Only the calling thread's record changes, and it takes the sampler, elements and result. Handle order, completion flags and targets are unchanged. The thread must have started, because an absent record throws. |
| DeliveryBuffer.DeliverPendingCompletedRequests | src/main/java/com/blazemeter/jmeter/correlation/CorrelationProxyControl.java:324-334 | The buffer splits into a handed-on prefix of complete records and a remainder. The remainder is empty or starts with an incomplete record. |
| DeliveryBuffer.EndedProxy | src/main/java/com/blazemeter/jmeter/correlation/CorrelationProxyControl.java:303-322 | An unknown thread changes nothing and hands nothing on. Otherwise the settled buffer is drained: everything handed on is complete, and the buffer left starts incomplete. |
| DeliveryBuffer.EndedProxyOutcome | src/main/java/com/blazemeter/jmeter/correlation/CorrelationProxyControl.java:316-321 | A record without a result is removed altogether, so the thread is neither handed on nor kept. A record with a result is marked complete, and nothing else changes. |
| DeliveryBuffer.SettleSpec | src/main/java/com/blazemeter/jmeter/correlation/CorrelationProxyControl.java:316-320 | The in-place settle step equals the reference definitions: removal of every record of the thread, or marking it complete. |
| DeliveryBuffer.DrainStopsAt | src/main/java/com/blazemeter/jmeter/correlation/CorrelationProxyControl.java:326-330 | The drain never passes an incomplete record. Everything before it is either handed on or still buffered ahead of it. |
| DeliveryBuffer.RunKeepsStartOrder | src/main/java/com/blazemeter/jmeter/correlation/CorrelationProxyControl.java:299-334 | Over any admissible interleaving of calls, the handed-on records followed by the buffered ones are a subsequence of the threads in start order. |
| DeliveryBuffer.DeliveryFollowsStartOrder | src/main/java/com/blazemeter/jmeter/correlation/CorrelationProxyControl.java:299-334 | From an empty buffer, transactions are handed on in the order their threads started. |
| DeliveryBuffer.DroppedNeverDelivered | src/main/java/com/blazemeter/jmeter/correlation/CorrelationProxyControl.java:316-317 | With unique thread handles, no transaction is handed on twice or both handed on and buffered. A thread ended without a result is never handed on and never kept. |
| DeliveryBuffer.IncompleteRecordBlocks | src/main/java/com/blazemeter/jmeter/correlation/CorrelationProxyControl.java:326-330 | Until its thread ends, an incomplete record stays buffered and incomplete. Nothing started after it is handed on, and everything handed on or ahead of it started before it. |
| DeliveryBuffer.ThreeThreadScenario | src/main/java/com/blazemeter/jmeter/correlation/CorrelationProxyControl.java:293-334 | Three threads start in the order 1, 2, 3, and thread 3 finishes first. Thread 2 has no result. Transactions 1 and 3 are handed on in that order, and 2 is dropped. |
| CookieTracker.ParseRequestCookie | src/main/java/com/blazemeter/jmeter/correlation/CorrelationProxyControl.java:438-442 | A piece throws exactly when it has no `=`. Otherwise `name=value` renders back to the piece, the name has no `=`, and the domain is the request host. |
| CookieTracker.ParseRequestCookies | src/main/java/com/blazemeter/jmeter/correlation/CorrelationProxyControl.java:437-442 | The header's pieces throw exactly when some piece has no `=`. Otherwise there is one cookie per piece, in order. |
| CookieTracker.ExtractNewRequestCookies | src/main/java/com/blazemeter/jmeter/correlation/CorrelationProxyControl.java:427-445 | A missing or blank header gives no cookies. A piece without `=` throws. Otherwise a cookie is returned exactly when it was parsed from the header and the jar does not contain it. |
| CookieTracker.UntrackedSubseq | src/main/java/com/blazemeter/jmeter/correlation/CorrelationProxyControl.java:443-444 | The cookies kept by the filter appear in header order. |
| CookieTracker.RequestCookiesRoundTrip | src/main/java/com/blazemeter/jmeter/correlation/CorrelationProxyControl.java:437-442 | Rendering the parsed cookies and joining them with "; " gives the header back. |
| CookieTracker.AddCookie | src/main/java/com/blazemeter/jmeter/correlation/CorrelationProxyControl.java:447-456 | The new cookie is in the jar, and it is the only cookie there with its (name, domain). Identities stay unique. Cookies of every other identity are untouched. |
| CookieTracker.AddCookieIdentities | src/main/java/com/blazemeter/jmeter/correlation/CorrelationProxyControl.java:449-455 | After removing the same identity, the set does not hold the cookie. Adding it then keeps one cookie per identity. |
| CookieTracker.CookieIdentityScenario | src/main/java/com/blazemeter/jmeter/correlation/CorrelationProxyControl.java:447-456 | A second value for the same name and domain replaces the first. The same name on another domain is kept beside it. |
| CookieTracker.ParseSetCookie | src/main/java/com/blazemeter/jmeter/correlation/CorrelationProxyControl.java:475-481 | A line throws exactly when no `=` follows the colon, or no `;` follows that `=`. Otherwise the cookie has a trimmed name without `=`, a value without `;` and the request host as domain. |
| CookieTracker.SetCookiesParsed | src/main/java/com/blazemeter/jmeter/correlation/CorrelationProxyControl.java:473-481 | The Set-Cookie lines are parsed in order up to the first malformed one. Each cookie is the parse of its line. Parsing stops early exactly when some line is malformed, and that line is the first one not parsed. |
| CookieTracker.SetCookieRoundTrip | src/main/java/com/blazemeter/jmeter/correlation/CorrelationProxyControl.java:475-481 | `Header: name=value;attributes` parses back to exactly (name, value, host). |
| CookieTracker.SetCookieWithoutAttributesFails | src/main/java/com/blazemeter/jmeter/correlation/CorrelationProxyControl.java:478-480 | As written, a Set-Cookie line with no `;` after the value throws. |
| CookieTracker.ParseSetCookieToEnd | src/main/java/com/blazemeter/jmeter/correlation/CorrelationProxyControl.java:475-481 | Corrected parse, where a missing `;` ends the value at the end of the line. It fails exactly when no `=` follows the colon. |
| CookieTracker.SetCookieToEndRoundTrip | src/main/java/com/blazemeter/jmeter/correlation/CorrelationProxyControl.java:475-481 | The corrected parse still reads `Header: name=value;attributes` back as (name, value, host). |
| CookieTracker.BareSetCookieRoundTrip | src/main/java/com/blazemeter/jmeter/correlation/CorrelationProxyControl.java:475-481 | The corrected parse reads `Header: name=value` back as (name, value, host). |
| CookieTracker.ParseLinesThrows | src/main/java/com/blazemeter/jmeter/correlation/CorrelationProxyControl.java:473-482 | The lazy stream throws exactly when some Set-Cookie line fails to parse. |
| CookieTracker.AddResponseHeaders | src/main/java/com/blazemeter/jmeter/correlation/CorrelationProxyControl.java:471-483 | The call throws exactly when some line whose lower-cased text starts with `set-cookie` fails to parse. Identities stay unique. Every cookie in the jar was there before or was parsed, with the request host as its domain, from a `set-cookie` line ahead of the first malformed one; nothing from later lines reaches the jar. Of the cookies parsed before the first malformed line, the last of each identity ends up in the jar. A jar cookie whose identity none of them shares is kept. |
| CookieTracker.AddAllLastWins | src/main/java/com/blazemeter/jmeter/correlation/CorrelationProxyControl.java:482 | After adding a list, the last cookie of each identity in it is in the jar. So is every earlier cookie whose identity the list does not mention. |
| CookieTracker.AddMissingCookies | src/main/java/com/blazemeter/jmeter/correlation/CorrelationProxyControl.java:418-425 | If the request header throws, nothing is recorded. Otherwise:<br>- the pre-processors are the new request cookies;<br>- each pre-processor is on the request host and was not in the jar;<br>- the response part throws exactly when a Set-Cookie line fails to parse;<br>- identities stay unique. |
| CookieTracker.RecordedKeepsRequestCookie | src/main/java/com/blazemeter/jmeter/correlation/CorrelationProxyControl.java:418-425 | A request cookie that got a pre-processor stays in the jar. The exception is a later request cookie or Set-Cookie line with the same identity. |
| Rules.EnabledRules | src/main/java/com/blazemeter/jmeter/correlation/core/CorrelationEngine.java:34-36 | Every rule kept comes from an enabled group. |
| Rules.EnabledRulesComplete | src/main/java/com/blazemeter/jmeter/correlation/core/CorrelationEngine.java:34-40 | Every rule of every enabled group is kept. |
| Rules.EnabledRulesAppend | src/main/java/com/blazemeter/jmeter/correlation/core/CorrelationEngine.java:34-41 | Flattening distributes over concatenation of group lists, which keeps group order and then rule order. |
| Rules.EnabledRulesSingle | src/main/java/com/blazemeter/jmeter/correlation/core/CorrelationEngine.java:35-36 | A disabled group contributes nothing. An enabled one contributes all its rules, in order. |
| CorrelationEngine.GetSupportedContext | src/main/java/com/blazemeter/jmeter/correlation/core/CorrelationEngine.java:52-65 | The result is the first context of the requested class. The list grows only when there was none, by exactly one registry-made context at the end. At most one context per class is kept. |
| CorrelationEngine.UpdateCorrelationContext | src/main/java/com/blazemeter/jmeter/correlation/core/CorrelationEngine.java:44-50 | A part that declares a class gets a context of that class. A part that declares none is left alone. The list grows by at most one, with the declared class. |
| CorrelationEngine.AttachAllAttaches | src/main/java/com/blazemeter/jmeter/correlation/core/CorrelationEngine.java:37-41 | After all rules are attached, each rule's extractor and replacement point at a context of their declared class in the final list. |
| CorrelationEngine.AttachAllKinds | src/main/java/com/blazemeter/jmeter/correlation/core/CorrelationEngine.java:37-39 | A class has a context afterwards exactly when it had one before or a rule part declares it. |
| CorrelationEngine.SetCorrelationRules | src/main/java/com/blazemeter/jmeter/correlation/core/CorrelationEngine.java:31-42 | The rules become one attached copy of each enabled group's rules, in order. Earlier contexts are kept and there is one context per class. Variables and the enabled flag do not change. |
| CorrelationEngine.SetCorrelationRulesKinds | src/main/java/com/blazemeter/jmeter/correlation/core/CorrelationEngine.java:31-42 | After setting rules, a context class is present exactly when it was before or some rule part of an enabled group declares it. |
| CorrelationEngine.Reset | src/main/java/com/blazemeter/jmeter/correlation/core/CorrelationEngine.java:67-71 | The variables are emptied and every context is reset in place. Rules, the enabled flag and the context classes are kept. |
| CorrelationEngine.ResetIdempotent | src/main/java/com/blazemeter/jmeter/correlation/core/CorrelationEngine.java:67-71 | If each context's own reset is idempotent, resetting the engine twice equals resetting it once. |
| CorrelationEngine.AllMatch | src/main/java/com/blazemeter/jmeter/correlation/core/CorrelationEngine.java:123-135 | The loop accepts exactly when every pattern compiles and matches. A malformed pattern rejects. |
| CorrelationEngine.ContentTypeAllowed | src/main/java/com/blazemeter/jmeter/correlation/core/CorrelationEngine.java:107-136 | A missing or empty filter allows everything, and so does a missing or empty content type. Otherwise the content type is allowed exactly when it matches every comma-separated filter piece. |
| CorrelationEngine.PositionsComplete | src/main/java/com/blazemeter/jmeter/correlation/core/CorrelationEngine.java:86-88 | Every enabled rule that has the part is visited by the filtered stream. |
| CorrelationEngine.Process | src/main/java/com/blazemeter/jmeter/correlation/core/CorrelationEngine.java:73-97 | A failed sample's sampler gets the comment "ORIGINALLY FAILED", and a successful one's is untouched. A disabled engine does nothing else. The rules, enabled flag and context classes are kept. |
| CorrelationEngine.TraceReplaces | src/main/java/com/blazemeter/jmeter/correlation/core/CorrelationEngine.java:86-88 | An enabled engine runs a rule's replacement exactly when the rule is enabled and has one. |
| CorrelationEngine.TraceUpdates | src/main/java/com/blazemeter/jmeter/correlation/core/CorrelationEngine.java:90 | An enabled engine updates every initialised context and nothing else. |
| CorrelationEngine.TraceExtracts | src/main/java/com/blazemeter/jmeter/correlation/core/CorrelationEngine.java:92-96 | An extractor runs exactly when the content type is allowed and its rule is enabled and has one. |
| CorrelationEngine.TraceOrder | src/main/java/com/blazemeter/jmeter/correlation/core/CorrelationEngine.java:85-96 | All replacements come before all context updates, which come before all extractors. Within each phase, the order is rule order or context order. |
| CorrelationEngine.ProcessUpdatesContexts | src/main/java/com/blazemeter/jmeter/correlation/core/CorrelationEngine.java:90 | After processing, each context holds its state updated once with the sample result. Its class and position are unchanged, whatever the rule parts did to the variables. |
| GroupMerge.RenamedInjective | src/main/java/com/blazemeter/jmeter/correlation/CorrelationProxyControl.java:637 | Different numbers give different `title (n)` names. |
| GroupMerge.AvailableNumber | src/main/java/com/blazemeter/jmeter/correlation/CorrelationProxyControl.java:636-647 | The recursion stops at the first number from `n` upward whose name is free. All names in between are taken. That number is at most one more than the number of ids, which bounds the recursion. |
| GroupMerge.FindNextAvailableTitle | src/main/java/com/blazemeter/jmeter/correlation/CorrelationProxyControl.java:636-647 | The title is not an existing id. It is `title (k)` for the least k >= 1 whose name is free, and k is at most the number of ids plus one. |
| GroupMerge.Placed | src/main/java/com/blazemeter/jmeter/correlation/CorrelationProxyControl.java:622-630 | A loaded group keeps its rules and enabled flag. It keeps its id when that id is free, and otherwise takes a name free in the lookup list. |
| GroupMerge.AppendGroupsAsWritten | src/main/java/com/blazemeter/jmeter/correlation/CorrelationProxyControl.java:620-631 | The group loop as written keeps the current groups in front, followed by one group per loaded group. |
| GroupMerge.AppendGroupsAsWrittenPlaces | src/main/java/com/blazemeter/jmeter/correlation/CorrelationProxyControl.java:620-631 | As written, each loaded group keeps its rules and flag. It keeps its id when that id is free among the groups ahead of it. Otherwise it takes the first free `id (n)` among the current groups only, not among the groups added so far. |
| GroupMerge.AppendGroupsDuplicateIds | src/main/java/com/blazemeter/jmeter/correlation/CorrelationProxyControl.java:627 | As written, the current group is "X" and the loaded groups are "X" and "X". The result ids are "X", "X (1)", "X (1)". |
| GroupMerge.AppendGroups | src/main/java/com/blazemeter/jmeter/correlation/CorrelationProxyControl.java:620-631 | Corrected loop: the current groups stay in front, followed by one group per loaded group. |
| GroupMerge.AppendGroupsDistinct | src/main/java/com/blazemeter/jmeter/correlation/CorrelationProxyControl.java:620-631 | With the corrected lookup, unique group ids stay unique after the merge. |
| GroupMerge.AppendGroupsPlaces | src/main/java/com/blazemeter/jmeter/correlation/CorrelationProxyControl.java:621-630 | Each loaded group is placed against the groups ahead of it in the result. It keeps its id when that id is free there, and otherwise takes the first free `id (n)`. |
| GroupMerge.CleanRepeatedAsWrittenTokens | src/main/java/com/blazemeter/jmeter/correlation/CorrelationProxyControl.java:654-658 | In any iteration order of the hash set, the trimmed tokens joined are exactly the trimmed tokens of both lists. |
| GroupMerge.CleanRepeatedKeepsDuplicates | src/main/java/com/blazemeter/jmeter/correlation/CorrelationProxyControl.java:654-658 | As written, merging "a" with " a" gives "a,a" in either iteration order, so the same entry appears twice. |
| GroupMerge.CleanedTokens | src/main/java/com/blazemeter/jmeter/correlation/CorrelationProxyControl.java:654-658 | Corrected token set: no duplicates, and a token is present exactly when it is a trimmed token of either list. |
| GroupMerge.CleanRepeatedSplits | src/main/java/com/blazemeter/jmeter/correlation/CorrelationProxyControl.java:649-659 | The corrected merged string splits back at its commas into exactly the cleaned tokens. |
| GroupMerge.CleanRepeatedMerges | src/main/java/com/blazemeter/jmeter/correlation/CorrelationProxyControl.java:654-658 | With trimming before the duplicate check, "a" and " a" merge into "a". |
| GroupMerge.AppendCorrelationRules | src/main/java/com/blazemeter/jmeter/correlation/CorrelationProxyControl.java:661-671 | With no loaded rules, the current list is returned unchanged. Otherwise:<br>- no duplicates;<br>- a rule is present exactly when it is in either list;<br>- rules are ordered by first occurrence, current rules first. |
| GroupMerge.AppendAsWritten | src/main/java/com/blazemeter/jmeter/correlation/CorrelationProxyControl.java:609-634 | `append` as written:<br>- components and filters are kept when nothing is loaded;<br>- the current groups stay in front;<br>- each loaded group is placed against the groups ahead of it, with the renaming lookup among the current groups only. |
| GroupMerge.Append | src/main/java/com/blazemeter/jmeter/correlation/CorrelationProxyControl.java:609-634 | Corrected `append` (see Findings). It trims before removing duplicates and looks up free names in the growing list. Components and filters are kept when nothing is loaded. The current groups stay in front, and each loaded group follows with the same rules and flag. Unique group ids stay unique. |
| JavaStrings.JoinPieces | src/main/java/com/blazemeter/jmeter/correlation/CorrelationProxyControl.java:437 | Splitting a header at its separators and joining it again gives the header back. |
| JavaStrings.PiecesOfJoin | src/main/java/com/blazemeter/jmeter/correlation/CorrelationProxyControl.java:658 | Joining comma-free tokens with commas and splitting again gives the tokens back. |

## Left out

- `deliverCompletedProxy` (P:336 on) is left out: the sampler filter, the JMeter recorder hand-off and the engine call. Handing a record on is modelled as appending it to the delivery trace.
- Proxy start-up, the recorder GUI and the template registry are left out. So are reading and writing test-element properties and reflection.
- Rule parts' effects on the sampler and its children are left out. `act` sees only the event and the variable store, because rule-part code is not part of this model.
- `JMeterContextService` thread variables are left out; the store is the engine's `vars` map.
- `buildCookiePreProcessor` (P:458-469) is left out. It only formats a JSR223 script; `AddMissingCookies` records the cookies it would be built from.
- The `getGroups` backward-compatibility path for a rules-only configuration is left out. So are `componentsRegistry.updateActiveComponents` and the engine refresh in `setCorrelationGroups`; the refresh is modelled separately as `SetCorrelationRules`.
- The "New Group" that `onLoadTemplate` adds for loose template rules (P:597-601) is left out. It is one more loaded group.
- The pattern-cache flags and Perl5 regular-expression semantics are left out: `matcher` is a parameter.
- Non-ASCII and locale-dependent lower-casing is left out: `ToLowerAscii` folds only 'A'-'Z'. The source's `toLowerCase()` uses the default locale, so under a Turkish locale "SET-COOKIE" lower-cases to "set-cookıe" and the line is skipped; the model always matches it.
- Concurrency is left out. The buffer methods are `synchronized`, so any interleaving is a sequence of calls (`Run`).
- `CorrelationRule.equals` is taken as structural equality of the modelled fields. `ComparableCookie.equals` is the parameter `eq`, and the properties assume only that equal cookies share name and domain.
- DeliveryBuffer.DeliverSampler: requires the thread to have started. The source dereferences a missing record, so an unstarted thread throws a NullPointerException, which is not modelled.
- GroupMerge.AvailableNumber: requires every number below the starting one to be taken. That holds for the single call made with 1, and it is what bounds the recursion.
- GroupMerge.CleanRepeatedAsWritten: the `HashSet` iteration order is the parameter `order`, so its ensures cover only the empty-loaded case. Its content is stated by CleanRepeatedAsWrittenTokens.
- GroupMerge.CleanRepeated: the corrected version orders tokens by first occurrence, where the source uses hash order.
- GroupMerge.CleanRepeatedSplits: requires at least one token, because an empty token list joins to "" and splits back as one empty piece.

## Findings

| source | as written | input that shows it | evidently intended | confidence | as-written member | corrected member |
|---|---|---|---|---|---|---|
| src/main/java/com/blazemeter/jmeter/correlation/CorrelationProxyControl.java:478-480 | The value ends at `indexOf(";", …)`. With no `;`, that is -1 and `substring` throws, which aborts the remaining Set-Cookie lines. | `Set-Cookie: id=1` | A cookie without attributes has its value run to the end of the line. | not executed | CookieTracker.SetCookieWithoutAttributesFails | CookieTracker.BareSetCookieRoundTrip |
| src/main/java/com/blazemeter/jmeter/correlation/CorrelationProxyControl.java:627 | `findNextAvailableTitle` looks for a free name in a fresh `getGroups()` copy, not in the list being built. | current groups "X"; loaded groups "X", "X" | Each renamed group gets a name not yet used, so group ids stay unique. | not executed | GroupMerge.AppendGroupsDuplicateIds | GroupMerge.Append |
| src/main/java/com/blazemeter/jmeter/correlation/CorrelationProxyControl.java:654-658 | Duplicates are removed before trimming, so tokens that differ only in spaces survive twice. | actual "a", loaded " a" | Each entry appears once after the merge. | not executed | GroupMerge.CleanRepeatedKeepsDuplicates | GroupMerge.CleanRepeatedMerges |
