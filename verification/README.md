# HTML Publisher core in Dafny

A model of three parts of the Jenkins HTML Publisher plugin. Each operation is written as a pure function over immutable values. Each is proved against a partner property: an inverse, an invariant or an independent characterisation.

- **Report targets** (`HtmlPublisherTarget`). The report-name sanitiser turns a report name into a directory and URL segment. Characters in `[a-zA-Z0-9-]` are copied, and `_` is also copied unless underscores are escaped. Every other code point becomes `_` followed by the lower-case hex of its UTF-8 bytes. Alongside it are the trimming constructor, the defaults of the optional settings, the include pattern, `readResolve`, `equals` and `hashCode`. `hashCode` is computed in 32-bit int arithmetic, and so is `String.hashCode`.
- **Content security** (`ContentSecurity`). This is the rewriter of a report's Content-Security-Policy header.
  - The policy is split at `;`. Each directive is keyed by its first space-separated token, and the first directive per key is kept.
  - The output starts with a mandatory `sandbox` directive. The configured `script-src`, `style-src` and `img-src` directives follow. Each one gains its tokens only when they are absent. Every other directive is then passed through as written.
  - The model also covers the `sandbox` attribute of the report iframe.
  - Jenkins' global "override allowed" setting is a boolean parameter.
- **The file queue and its adapters** (`FileEntryQueue`, `DirScanningQueueWriter`, `QueueReadingDirScanner`, `QueueShutdownAndRemover`, `FileVisitorService`).
  - A queue is a FIFO of `Real(file, path)` entries, a durable end-of-stream `Pill`, and a count of the files ever added.
  - Queues live in a node-local registry keyed by UUID.
  - A take that meets the pill puts it back at the tail, so every reader terminates.
  - The producer scans into the queue and then shuts it down. If the scan fails, the producer calls `shutdownNow` and rethrows.
  - The consumer drains the queue until the pill. If the visitor fails, the consumer calls `shutdownNow` and rethrows.
  - The remover unregisters a queue and shuts it down at once.
  - `FileVisitorService` is the local twin. Its workers run the same drain, and `close` records the first error any worker reports.

Support modules:
- `JavaText` models Java's `String.trim`, `contains`, `split` with a one-character pattern, 32-bit int wrap-around and `String.hashCode`.
- `Utf8` models UTF-8 encoding of one code point (section 3 of RFC 3629) and the lower-case hex rendering of `HexFormat.of()`, each with its decoder.
- `Wrappers` models Java `null` as `Option`.
- `FileVisitor` models a visitor as a function from a (file, relative path) pair to the `IOException` it throws, if any.

Blocking is not modelled. A take from an empty queue reports `WouldBlock`, and a drain that reaches an empty queue without a pill ends as `Blocked`.

## Model

| member | source | states |
|---|---|---|
| HtmlPublisherTarget.EscapeChar | src/main/java/htmlpublisher/HtmlPublisherTarget.java:229-230 | the replacement of one code point is `_` followed by 2 to 8 hex digits, all of them name characters |
| HtmlPublisherTarget.SanitizeReportName | src/main/java/htmlpublisher/HtmlPublisherTarget.java:218-234 | the result is never shorter than the name and is empty exactly when the name is |
| HtmlPublisherTarget.SanitizedIsSafe | src/main/java/htmlpublisher/HtmlPublisherTarget.java:220-230 | in either mode the result holds only characters of `[a-zA-Z0-9_-]` |
| HtmlPublisherTarget.SanitizeIdentity | src/main/java/htmlpublisher/HtmlPublisherTarget.java:220-232 | a name comes back unchanged exactly when every character is in the kept class, which is exactly when its length is unchanged |
| HtmlPublisherTarget.SanitizeConcat | src/main/java/htmlpublisher/HtmlPublisherTarget.java:228-232 | each code point is encoded separately, so nothing is collapsed: the sanitised concatenation is the concatenation of the sanitised parts |
| HtmlPublisherTarget.SanitizeFixedPoint | src/main/java/htmlpublisher/HtmlPublisherTarget.java:221-223 | every output, in either mode, is left alone by the non-escaping sanitiser |
| HtmlPublisherTarget.EscapingUnderscoresSpellsThemOut | src/main/java/htmlpublisher/HtmlPublisherTarget.java:220-224 | escaping underscores equals replacing each `_` by `_5f` and then sanitising without escaping |
| HtmlPublisherTarget.UnsanitizeRoundTrip | src/main/java/htmlpublisher/HtmlPublisherTarget.java:218-234 | with underscores escaped, the decoder recovers the name from its sanitised form |
| HtmlPublisherTarget.SanitizeInjective | src/main/java/htmlpublisher/HtmlPublisherTarget.java:218-234 | with underscores escaped, two names with the same sanitised form are equal |
| HtmlPublisherTarget.SanitizeNotInjectiveWithoutEscaping | src/main/java/htmlpublisher/HtmlPublisherTarget.java:223 | without escaping, the distinct names `foo bar` and `foo_20bar` share the output `foo_20bar` |
| HtmlPublisherTarget.SanitizeSpaceNotUnderscoreExample | src/test/java/htmlpublisher/Security784Test.java:61 | without escaping, `foo bar` and `foo_bar` give different outputs |
| HtmlPublisherTarget.SanitizeNoCollapseExample | src/test/java/htmlpublisher/Security784Test.java:64 | `foo!bar` and `foo!!!!bar` give different outputs |
| HtmlPublisherTarget.SanitizeBangExample | src/test/java/htmlpublisher/Security784Test.java:67 | `foo!bar` gives `foo_21bar` |
| HtmlPublisherTarget.SanitizeSpaceExample | src/test/java/htmlpublisher/Security784Test.java:68 | `foo bar` gives `foo_20bar` |
| HtmlPublisherTarget.SanitizePaddedExample | src/test/java/htmlpublisher/Security784Test.java:69 | leading and trailing spaces are escaped and not dropped: ` foo bar ` gives `_20foo_20bar_20` |
| HtmlPublisherTarget.SanitizeUnicodeExample | src/test/java/htmlpublisher/Security784Test.java:70 | U+5DDD U+53E3 give `_e5b79d_e58fa3`, the hex of all their UTF-8 bytes |
| HtmlPublisherTarget.SanitizeUnderscoreExample | src/test/java/htmlpublisher/HtmlPublisherTest.java:35 | `foo_bar` with escaping gives what `foo_5fbar` gives without it |
| HtmlPublisherTarget.EscapeUnderscores | src/main/java/htmlpublisher/HtmlPublisherTarget.java:162-168 | an unset escaping flag reads as true |
| HtmlPublisherTarget.UseWrapperFileDirectly | src/main/java/htmlpublisher/HtmlPublisherTarget.java:184-189 | an unset wrapper flag reads as false |
| HtmlPublisherTarget.Includes | src/main/java/htmlpublisher/HtmlPublisherTarget.java:522-528 | the pattern is never empty; it is the stored pattern when that is non-empty, and anything other than `**/*` was stored as is |
| HtmlPublisherTarget.NewTarget | src/main/java/htmlpublisher/HtmlPublisherTarget.java:128-135 | name, directory and files are trimmed slices of the arguments (null stays null); the flags are stored; escaping defaults to on, the wrapper flag to off, includes to every file and workers to 0 |
| HtmlPublisherTarget.NewTargetDeprecated | src/main/java/htmlpublisher/HtmlPublisherTarget.java:108-110 | the five-argument constructor never links to the last build and otherwise equals the six-argument one |
| HtmlPublisherTarget.NewTargetExamples | src/test/java/htmlpublisher/HtmlPublisherTest.java:26-29 | the trailing spaces of `tab1 `, `target ` and `tab1.html ` are trimmed |
| HtmlPublisherTarget.NewTargetIdempotent | src/main/java/htmlpublisher/HtmlPublisherTarget.java:128-135 | rebuilding a target from its own trimmed fields gives the same target |
| HtmlPublisherTarget.SetReportName | src/main/java/htmlpublisher/HtmlPublisherTarget.java:211 | the stored name is the argument with the characters at or below U+0020 removed at both ends, null stays null, and no other field changes |
| HtmlPublisherTarget.SetIncludes | src/main/java/htmlpublisher/HtmlPublisherTarget.java:535-537 | the pattern is stored exactly as given, no other field changes, and a non-empty pattern reads back verbatim; equality and hash are unaffected |
| HtmlPublisherTarget.SetIcon | src/main/java/htmlpublisher/HtmlPublisherTarget.java:175-177 | the stored icon is the argument trimmed, null stays null, and no other field changes; equality and hash are unaffected |
| HtmlPublisherTarget.SetReportTitles | src/main/java/htmlpublisher/HtmlPublisherTarget.java:206-208 | the stored titles are the argument trimmed, null stays null, and no other field changes; equality and hash are unaffected |
| HtmlPublisherTarget.TrimmingSettersIdempotent | src/main/java/htmlpublisher/HtmlPublisherTarget.java:175-177 | setting the icon, the titles or the name to the value a trimming setter just stored changes nothing |
| HtmlPublisherTarget.SetReportNameAsConstructed | src/main/java/htmlpublisher/HtmlPublisherTarget.java:211 | setting the name of a target built without one gives the target the constructor builds with that name |
| HtmlPublisherTarget.SetEscapeUnderscores | src/main/java/htmlpublisher/HtmlPublisherTarget.java:180-182 | a non-null flag is stored and reads back as set, and no other field changes; equality and hash are unaffected |
| HtmlPublisherTarget.SetUseWrapperFileDirectly | src/main/java/htmlpublisher/HtmlPublisherTarget.java:192-194 | a non-null flag is stored and reads back as set, and no other field changes; equality and hash are unaffected |
| HtmlPublisherTarget.SetNumberOfWorkers | src/main/java/htmlpublisher/HtmlPublisherTarget.java:201-203 | the worker count is stored as given, and no other field changes; equality and hash are unaffected |
| HtmlPublisherTarget.IncludesExamples | src/test/java/htmlpublisher/HtmlPublisherTest.java:14-21 | a new target, a null pattern and an empty pattern all mean `**/*`; `hello` reads back as `hello` |
| HtmlPublisherTarget.ReadResolve | src/main/java/htmlpublisher/HtmlPublisherTarget.java:543-549 | a missing pattern becomes `**/*`, a present one is kept, the effective pattern is unchanged, and nothing else changes |
| HtmlPublisherTarget.SanitizedName | src/main/java/htmlpublisher/HtmlPublisherTarget.java:213-215 | the directory name exists exactly when the report name does, is safe, and with the default escaping decodes back to the report name |
| HtmlPublisherTarget.SanitizedNameInjective | src/main/java/htmlpublisher/HtmlPublisherTarget.java:213-215 | two targets with the default escaping and the same directory name have the same report name |
| HtmlPublisherTarget.HashCode | src/main/java/htmlpublisher/HtmlPublisherTarget.java:551-561 | the step-by-step int fold of `97 * hash + term` is a Java int and equals the exact polynomial over seed and field hashes, wrapped once |
| HtmlPublisherTarget.EqualsHashCode | src/main/java/htmlpublisher/HtmlPublisherTarget.java:551-591 | equal targets have equal hash codes |
| HtmlPublisherTarget.EqualsEquivalence | src/main/java/htmlpublisher/HtmlPublisherTarget.java:563-591 | equality over the six constructor fields is reflexive, symmetric and transitive |
| JavaText.HornerInt32 | src/main/java/htmlpublisher/HtmlPublisherTarget.java:553-560 | folding with a wrap after every step equals wrapping the exact fold once |
| JavaText.StringHashCode | src/main/java/htmlpublisher/HtmlPublisherTarget.java:554-556 | the hash of a field is a Java int equal to the wrapped polynomial over its UTF-16 units |
| JavaText.TrimNullable | src/main/java/htmlpublisher/HtmlPublisherTarget.java:129-131 | null stays null; otherwise the result is a slice of the input with only chars at or below U+0020 removed at either end, and it is its own trim |
| JavaText.TrimTrim | src/main/java/htmlpublisher/HtmlPublisherTarget.java:129 | trimming twice is trimming once |
| JavaText.SplitAll | src/main/java/htmlpublisher/ContentSecurity.java:87 | the pieces contain no separator and joined with it give back the input |
| JavaText.Split | src/main/java/htmlpublisher/ContentSecurity.java:87 | the input itself when the separator is absent, otherwise the pieces with the trailing empty ones dropped |
| Utf8.DecodeEncode | src/main/java/htmlpublisher/HtmlPublisherTarget.java:230 | decoding the UTF-8 bytes of a code point gives the code point back |
| Utf8.ParseHexRoundTrip | src/main/java/htmlpublisher/HtmlPublisherTarget.java:230 | reading back the lower-case hex rendering of bytes gives the bytes, whatever follows |
| Utf8.ParseHexUtf8RoundTrip | src/main/java/htmlpublisher/HtmlPublisherTarget.java:230 | reading back the hex of one code point's UTF-8 bytes gives the code point and the length of its rendering |
| ContentSecurity.SandboxText | src/main/java/htmlpublisher/ContentSecurity.java:125-136 | the sandbox text is trimmed; it holds `allow-scripts` exactly when scripts are configured or it already did, and likewise `allow-same-origin`; the trimmed base gains each missing wanted token once, in order |
| ContentSecurity.AppendIfAbsent | src/main/java/htmlpublisher/ContentSecurity.java:144-149 | the text is extended, never changed; the token is present afterwards exactly when it was wanted or already present |
| ContentSecurity.SourceBase | src/main/java/htmlpublisher/ContentSecurity.java:139-143 | an existing directive is used trimmed |
| ContentSecurity.ScriptsText | src/main/java/htmlpublisher/ContentSecurity.java:138-151 | `script-src` starts from the trimmed directive or `script-src 'self'`; `'unsafe-inline'` and `'unsafe-eval'` are each present exactly when allowed or already there, and are appended at most once |
| ContentSecurity.StylesText | src/main/java/htmlpublisher/ContentSecurity.java:153-163 | `style-src` starts from the trimmed directive or `style-src 'self'`; `'unsafe-inline'` is present exactly when allowed or already there |
| ContentSecurity.ImagesText | src/main/java/htmlpublisher/ContentSecurity.java:165-175 | `img-src` starts from the trimmed directive or `img-src 'self'`; `data:` is present exactly when allowed or already there |
| ContentSecurity.DirectiveKey | src/main/java/htmlpublisher/ContentSecurity.java:89 | a directive's key is its trimmed text up to the first space |
| ContentSecurity.FirstWithKey | src/main/java/htmlpublisher/ContentSecurity.java:91 | the directive kept for a key is one of the pieces and has that key |
| ContentSecurity.Collect | src/main/java/htmlpublisher/ContentSecurity.java:87-93 | the collected directives have distinct keys, each the key of its directive, and each key maps to the first piece with that key |
| ContentSecurity.Without | src/main/java/htmlpublisher/ContentSecurity.java:96 | removing a key makes only that key unmapped; the rest keep their directives |
| ContentSecurity.WithoutIf | src/main/java/htmlpublisher/ContentSecurity.java:97-105 | a key is removed only when its option object is set |
| ContentSecurity.Generated | src/main/java/htmlpublisher/ContentSecurity.java:95-105 | one directive for the sandbox plus one per option object that is set, the first being the sandbox one built from the policy's sandbox directive |
| ContentSecurity.GeneratedLayout | src/main/java/htmlpublisher/ContentSecurity.java:96-105 | script-src, style-src and img-src follow the sandbox in that order, each present exactly when its option object is set and rebuilt from the policy's own directive of that key |
| ContentSecurity.Remaining | src/main/java/htmlpublisher/ContentSecurity.java:96-108 | the passed-through directives are the policy's, minus `sandbox` and minus each configured category |
| ContentSecurity.AlteredPolicy | src/main/java/htmlpublisher/ContentSecurity.java:75-110 | with the override disabled the policy is returned as given; otherwise a blank or null policy gives null; any other result starts with `sandbox`, ends with `;`, is trimmed, and followed by a space equals the emitted directives, each ended by `; ` |
| ContentSecurity.RewrittenSandbox | src/main/java/htmlpublisher/ContentSecurity.java:96 | the result opens with the rewritten first `sandbox` directive and its `;`; it holds `allow-scripts` exactly when scripts are configured or the policy's directive held it, and likewise `allow-same-origin` |
| ContentSecurity.PolicyStartsWithSandbox | src/main/java/htmlpublisher/ContentSecurity.java:96 | the rewritten policy opens with the sandbox text followed by `;` |
| ContentSecurity.PassedThrough | src/main/java/htmlpublisher/ContentSecurity.java:108 | a directive whose key is not rewritten is emitted exactly as the first one with that key, and no other directive with that key is emitted |
| ContentSecurity.DefaultSandboxWithScripts | src/main/java/htmlpublisher/ContentSecurity.java:126-135 | with no sandbox directive and scripts configured, the directive is `sandbox allow-scripts` |
| ContentSecurity.AlteredPolicyEdgeExamples | src/main/java/htmlpublisher/ContentSecurity.java:76-86 | an empty or all-space policy gives null; with the override disabled `sandbox allow-scripts` comes back as is |
| ContentSecurity.InvalidPolicyExample | src/test/java/htmlpublisher/ContentSecurityTest.java:98-103 | `invalid-policy` becomes `sandbox allow-scripts; script-src 'self'; style-src 'self'; invalid-policy;` |
| ContentSecurity.ExistingSandboxExample | src/test/java/htmlpublisher/ContentSecurityTest.java:110-115 | `sandbox test-policy` becomes `sandbox test-policy allow-scripts allow-same-origin; script-src 'self' 'unsafe-inline'; style-src 'self';` |
| ContentSecurity.IframeSandboxAttributes | src/main/java/htmlpublisher/ContentSecurity.java:177-194 | with the override disabled the attribute is empty; otherwise it is trimmed, holds `allow-scripts` exactly when scripts are configured and `allow-same-origin` exactly when same origin is allowed, and is empty only when neither is |
| ContentSecurity.IframeEnabled | src/main/java/htmlpublisher/ContentSecurity.java:186-193 | with the override enabled the attribute is the allowances spelled out case by case |
| ContentSecurity.IframeBothExample | src/test/java/htmlpublisher/ContentSecurityTest.java:36 | scripts and same origin give `allow-scripts allow-same-origin` |
| ContentSecurity.IframeScriptsExample | src/test/java/htmlpublisher/ContentSecurityTest.java:37 | scripts alone give `allow-scripts` |
| ContentSecurity.IframeSameOriginExample | src/test/java/htmlpublisher/ContentSecurityTest.java:38 | same origin alone gives `allow-same-origin` |
| ContentSecurity.IframeNoneExample | src/test/java/htmlpublisher/ContentSecurityTest.java:39-55 | neither gives the empty string, and so does a disabled override whatever is configured |
| ContentSecurity.WarnsWhenDisabledAsWrittenIsInverted | src/main/java/htmlpublisher/ContentSecurity.java:116-123 | as written, a configuration asking for nothing logs the warning, and one that sets every option object does not |
| ContentSecurity.WarnsWhenDisabled | src/main/java/htmlpublisher/ContentSecurity.java:77 | the intended warning fires exactly when the configuration asks for something |
| ContentSecurity.DisabledWarning | src/main/java/htmlpublisher/ContentSecurity.java:76 | the corrected decision the model uses: with the override disabled, warn exactly when something is configured |
| ContentSecurity.DisabledWarningAsWritten | src/main/java/htmlpublisher/ContentSecurity.java:178-179 | the decision as the source takes it: with the override disabled, warn when same origin is allowed or any of scripts, images, styles is null |
| ContentSecurity.DisabledWarningDisagreement | src/main/java/htmlpublisher/ContentSecurity.java:116-123 | the two decisions disagree exactly when the override is disabled, same origin is off, and the three option objects are all null or all set |
| FileEntryQueue.Add | src/main/java/htmlpublisher/util/FileEntryQueue.java:99-109 | exactly one real entry for the pair is appended and returned; the count goes up by one in int arithmetic, which is exactly one below the int maximum |
| FileEntryQueue.Take | src/main/java/htmlpublisher/util/FileEntryQueue.java:118-129 | a real head is removed and returned with nothing else changed; a pill head moves to the tail and ends the stream; only an empty queue would block; the count never changes |
| FileEntryQueue.TakeKeepsPill | src/main/java/htmlpublisher/util/FileEntryQueue.java:122-125 | meeting the pill keeps the multiset of entries, so a queue with a pill keeps one |
| FileEntryQueue.Shutdown | src/main/java/htmlpublisher/util/FileEntryQueue.java:135-139 | the pending entries stay, followed by one pill; the count is unchanged |
| FileEntryQueue.ShutdownNow | src/main/java/htmlpublisher/util/FileEntryQueue.java:145-153 | the queue becomes exactly the pill; the count is unchanged |
| FileEntryQueue.BeforePill | src/main/java/htmlpublisher/util/FileEntryQueue.java:118-129 | the entries readers will take are the real prefix ending at the first pill, or all entries when there is none |
| FileEntryQueue.AddAll | src/main/java/htmlpublisher/util/FileEntryQueue.java:99-109 | adding pairs one by one appends their entries in order and advances the count by their number, wrapped to an int |
| FileEntryQueue.RealsInjective | src/main/java/htmlpublisher/util/FileEntryQueue.java:44-54 | different pair lists give different entry lists |
| FileEntryQueue.TakeReals | src/main/java/htmlpublisher/util/FileEntryQueue.java:118-129 | real entries at the head are taken in FIFO order and the rest of the queue is left as it was |
| FileEntryQueue.PillForever | src/main/java/htmlpublisher/util/FileEntryQueue.java:122-125 | a queue holding only the pill ends the stream on every take and stays as it is |
| FileEntryQueue.DrainAfterShutdown | src/main/java/htmlpublisher/util/FileEntryQueue.java:135-139 | after shutdown of k real entries the next k takes return them in order and every later take ends the stream |
| FileEntryQueue.ShutdownNowEndsEveryTake | src/main/java/htmlpublisher/util/FileEntryQueue.java:145-153 | after shutdownNow every take ends the stream |
| FileEntryQueue.GetOrCreateQueue | src/main/java/htmlpublisher/util/FileEntryQueue.java:74-78 | a present key gives its queue and changes nothing; an absent key gets a fresh empty queue; other keys are untouched |
| FileEntryQueue.Remove | src/main/java/htmlpublisher/util/FileEntryQueue.java:85-89 | the key becomes absent; the mapped queue is returned, or none when there was none; other keys are untouched |
| FileEntryQueue.GetOrCreateQueueIdempotent | src/main/java/htmlpublisher/util/FileEntryQueue.java:74-78 | a second lookup finds the same queue and registers nothing more |
| FileEntryQueue.RemoveAfterGetOrCreate | src/main/java/htmlpublisher/util/FileEntryQueue.java:74-89 | removing a key just looked up returns that queue and restores the registry without the key |
| DirScanningQueueWriter.Invoke | src/main/java/htmlpublisher/util/DirScanningQueueWriter.java:57-76 | the scan's exception is rethrown; the key is registered and no other key changes; the count grows by the number of visited files; success appends their entries in visit order followed by one pill; failure leaves only the pill |
| DirScanningQueueWriter.InvokeLeavesPill | src/main/java/htmlpublisher/util/DirScanningQueueWriter.java:66-72 | whichever way the scan ends, the queue holds a pill |
| DirScanningQueueWriter.WriteThenRead | src/main/java/htmlpublisher/util/DirScanningQueueWriter.java:37-72 | a successful write into a new queue, read back by a visitor that never fails, visits exactly the scanned pairs in scan order and leaves the pill |
| DirScanningQueueWriter.ReadBack | src/main/java/htmlpublisher/util/QueueReadingDirScanner.java:30-37 | draining what a successful scan wrote visits exactly the scanned pairs, finishes, and leaves only the pill |
| DirScanningQueueWriter.FailedScanClosesQueue | src/test/java/htmlpublisher/util/DirScanningQueueWriterTest.java:19-44 | a failing scan rethrows its exception, and the next take on the queue ends the stream even when files were queued before |
| QueueReadingDirScanner.FirstFailure | src/main/java/htmlpublisher/util/QueueReadingDirScanner.java:30-41 | the position found is the first pair whose visit throws; none is found exactly when every visit returns normally |
| QueueReadingDirScanner.Drain | src/main/java/htmlpublisher/util/QueueReadingDirScanner.java:29-41 | the real entries before the first pill are visited in order up to and including the first failure; a failure leaves only the pill; the pill ends the drain and stays; the count is unchanged |
| QueueReadingDirScanner.DrainCons | src/main/java/htmlpublisher/util/QueueReadingDirScanner.java:30-35 | a successful visit of the head followed by a drain of the rest is a drain of the whole queue |
| QueueReadingDirScanner.Scan | src/main/java/htmlpublisher/util/QueueReadingDirScanner.java:24-43 | the queue under the key, created if absent, is drained as described; other keys and the count are unchanged |
| QueueReadingDirScanner.ScanTerminates | src/main/java/htmlpublisher/util/QueueReadingDirScanner.java:30-37 | a queue holding a pill always ends the scan and still holds a pill afterwards; a failure leaves only the pill |
| QueueReadingDirScanner.ScanVisitsInOrder | src/main/java/htmlpublisher/util/QueueReadingDirScanner.java:30-35 | on normal exit exactly the entries ahead of the first pill were visited, once each, in FIFO order, and every visit returned normally |
| QueueReadingDirScanner.ScanStopsAtFailure | src/main/java/htmlpublisher/util/QueueReadingDirScanner.java:38-41 | after a failing visit nothing later is visited, the error is that visit's, and the queue is left as only the pill |
| QueueShutdownAndRemover.Invoke | src/main/java/htmlpublisher/util/QueueShutdownAndRemover.java:34-44 | the key becomes absent and other keys are untouched; a removed queue is left as only the pill with its count; an absent key changes nothing |
| QueueShutdownAndRemover.InvokeIdempotent | src/main/java/htmlpublisher/util/QueueShutdownAndRemover.java:34-44 | a second invoke with the same key changes nothing and finds no queue |
| QueueShutdownAndRemover.HoldersFinish | src/main/java/htmlpublisher/util/QueueShutdownAndRemover.java:38-40 | a reader still holding the removed queue visits nothing and finishes |
| FileVisitorService.Add | src/main/java/htmlpublisher/util/FileVisitorService.java:104-112 | the add fails with IllegalStateException("Queue is shutting down") exactly when shutting down; otherwise one real entry is appended and returned |
| FileVisitorService.Shutdown | src/main/java/htmlpublisher/util/FileVisitorService.java:125-130 | the flag is set and one pill is appended behind the pending entries |
| FileVisitorService.ShutdownNow | src/main/java/htmlpublisher/util/FileVisitorService.java:136-144 | the pending entries are dropped, leaving only the pill, and the flag is set |
| FileVisitorService.WorkerCall | src/main/java/htmlpublisher/util/FileVisitorService.java:67-86 | a worker drains like a queue reader: it stops at the pill, which stays, or at the first failing visit, which shuts the service down |
| FileVisitorService.Collect | src/main/java/htmlpublisher/util/FileVisitorService.java:153-162 | an error already recorded is never overwritten |
| FileVisitorService.CollectFirstError | src/main/java/htmlpublisher/util/FileVisitorService.java:153-162 | starting from no error, the recorded error is the first non-null one in iteration order, and none exactly when every worker returned null |
| FileVisitorService.Close | src/main/java/htmlpublisher/util/FileVisitorService.java:147-164 | close shuts the service down; a recorded error is kept, and otherwise the first error of the results is recorded |
| FileVisitorService.ThrowCatchedException | src/main/java/htmlpublisher/util/FileVisitorService.java:114-119 | it throws exactly when an error is recorded, and throws that error |
| FileVisitorService.RunWorkers | src/main/java/htmlpublisher/util/FileVisitorService.java:94-96 | n workers give n results and do not touch the recorded error |
| FileVisitorService.ScheduledClose | src/main/java/htmlpublisher/util/FileVisitorService.java:147-164 | with the workers running after close's shutdown, the service ends shut down with the error close records from their results |
| FileVisitorService.IdleWorkers | src/main/java/htmlpublisher/util/FileVisitorService.java:70-79 | workers that meet only the pill return null and leave it queued |
| FileVisitorService.NothingAddedNoError | src/test/java/htmlpublisher/util/FileVisitorServiceTest.java:24-37 | with nothing added, close records no error, throwCatchedException throws nothing and a later add is refused |
| FileVisitorService.FirstFailureDropsRest | src/test/java/htmlpublisher/util/FileVisitorServiceTest.java:90-104 | when the first file fails, close records that failure and leaves only the pill, so later entries are dropped and never visited |
| FileVisitorService.FirstWorkerFails | src/main/java/htmlpublisher/util/FileVisitorService.java:80-83 | the first worker on a service whose first file fails returns that failure and leaves only the pill |

## Left out

- Threads, executors and `Future`s are not modelled. `MultithreadedFileCopyHelper`, `MultithreadedDirScanner` and `MultithreadedFileVisitor` orchestrate them, and concurrency is their whole point. The workers of `FileVisitorService` run one after another, after `close` has shut the service down. That is one of the schedules the source allows.
- A blocking `take` on an empty queue is the `WouldBlock` outcome, and a drain that reaches it ends as `Blocked`. Waiting and interruption are not modelled.
- `FileEntryQueue.Statistic` is not part of this model, because `FileEntryQueue.java` does not define it. The writer's `Invoke` returns the registry, whose queue carries `overallCount`.
- FileEntryQueue.Add: the count wraps from the int maximum to the int minimum, as `AtomicInteger.incrementAndGet` does. "The count never decreases" therefore holds only below the int maximum, and it is stated only there.
- `FileVisitorService` keeps its workers in a `HashSet`. The model takes the iteration order as given: the result sequence of `Close` is in whatever order the set yields.
- The pass-through directives come from a `HashMap` in the source, so their relative order is unspecified. The model emits them in first-occurrence order. The contracts speak about which directives are emitted, and the order itself carries no promise.
- Logging, and the `Jenkins.get()` lookup of the "override allowed" setting, are left out. The setting is a parameter. The logging decision is kept twice: as the source takes it in `ContentSecurity.DisabledWarningAsWritten`, and corrected in `ContentSecurity.DisabledWarning`.
- `File` objects are their path strings. A visitor is a function from a (file, relative path) pair to the `IOException` it throws. The directory scanner's glob over the file system is left out. `DirScanningQueueWriter.DirScan` gives its visits and its final exception instead.
- Java `null` is `None`. `getSanitizedName` on a target without a name throws `NullPointerException` in the source and gives `None` here.
- Java strings may hold unpaired surrogates, and a Dafny `char` cannot. `sanitizeReportName` of such a string is not modelled.
- `HtmlPublisher.java` is not part of this model. It covers status files, environment variables, Gson and HTTP.
- The Jenkins UI and model glue is not part of this model: the actions, `getIconFileName`, `doDynamic`, the workflow step classes and the JavaScript.
- The `DescriptorImpl` classes, role checks and serialisation identifiers are Jenkins plumbing without logic of their own.
- The action comparison in the test at `src/test/java/htmlpublisher/HtmlPublisherTest.java:43-59` is left out. `HTMLBuildAction` and `BaseHTMLAction` define no `equals`, so that comparison is Java's object identity on the actions and does not involve target equality. The model keeps only the test's trimming of the constructor arguments (`HtmlPublisherTarget.NewTargetExamples`).

## Findings

| source | as written | input that shows it | evidently intended | confidence | as-written member | corrected member |
|---|---|---|---|---|---|---|
| src/main/java/htmlpublisher/ContentSecurity.java:116-123 | `areAnyNotNull` returns true as soon as one of scripts, images and styles IS null, so the "override disabled" warning condition is inverted for those three objects | with the override disabled, a configuration with nothing set logs the warning. One with scripts, styles and images all set (same origin off) does not | warn when any option object is set or same origin is allowed | not executed (the condition only selects a log message) | ContentSecurity.WarnsWhenDisabledAsWrittenIsInverted | ContentSecurity.WarnsWhenDisabled |
