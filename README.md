# s3-notify, modelled in Dafny

`S3Notify` is a command-line tool that simulates S3 event notifications.
For every key prefix it is given, it either lists the bucket's objects under
that prefix or, in bypass mode (`--skip-s3-validation`), takes the prefix
itself as the key. For each object it publishes a hand-built S3 event
message to the SNS topic. It finds the topic by matching the requested event
name (default `ObjectCreated:Put`) against the bucket's notification
configuration.

This project models the core of that class (`S3Notify.java`) and proves
properties of the model:

- `java_lang.dfy` (module `JavaLang`): the parts of `java.lang` the class
  relies on.
  - `Optional` and the exceptions it can throw.
  - The 64-bit `long` and its decimal text, with a parser as its inverse.
  - `startsWith`, `endsWith` and `toLowerCase`.
- `event_names.dfy` (module `EventNames`): `extractEventPrefix` and
  `extractEventSuffix`. Both are built on Java's `String.split(":")`:
  - a text with no `:` is one piece;
  - otherwise trailing empty pieces are dropped, so `":"` has no piece at all.

  `JoinPieces` and `PiecesColonFree` together prove that the pieces are
  exactly the texts between consecutive delimiters. The lemmas state the family and the action in terms of the
  first and last `:`, independently of `split`.
- `topic_matching.dfy` (module `TopicMatching`): `getTopicArn` as a pure
  first-match function over the topic configurations, with its ordering
  properties.
- `message.dfy` (module `Message`): `createMessageFromTemplate`.
  - It is modelled as `String.format` over the template's literal parts.
  - The partner is a decoder that reads a message back into its fields, with
    a round-trip lemma.
- `duration_format.dfy` (module `DurationFormat`): `humanReadableFormat`.
  - The left-to-right `replaceAll` scan is proved equal to a
    position-by-position reference definition.
  - Further lemmas show that only spaces are inserted and that none is
    inserted at the end.
- `dispatch.dfy` (module `Dispatch`): what a whole `run()` does, as
  functions.
  - The early return when no topic matched.
  - The loop over the prefixes, which ends at the first exception.
  - The per-prefix touch and skip counters.
  - The messages published, in order.
- `notify.dfy` (module `Notify`): the class `S3Notify` itself.
  - Its mutable fields: `verbose`, `eventPrefix`, `eventSuffix`, and the log
    of SNS publish calls.
  - Its methods, written as the source's loops.
  - Each method is proved to produce exactly the state or result that the
    `Dispatch` and `TopicMatching` functions describe.

The outside world is a value of type `Dispatch.Environment`, made of four
functions:
- the bucket's notification configuration;
- the pages of `listObjectsV2` for a bucket and a prefix;
- whether a key fully matches the `--match` regular expression;
- the `LocalDateTime.now()` text when the n-th message is built.

The command-line options form the immutable `Dispatch.Options`.

The model follows the code, including where its behaviour is not the
obvious reading of the method names:
- **The suffix.** It is the last piece that `split` keeps, with trailing
  empty pieces dropped. It is not simply the text after the last `:`: `"a:b:"`
  has the suffix `b`, and `"a:"` has none (`SuffixIsLastAction`,
  `TrailingDelimiterGivesNoAction`).
- **The prefix can throw.** A name made of `:` alone splits into no piece,
  so `parts[0]` throws (`LoneDelimiter`, `UnreadableEventAborts`).
- **One candidate pattern per configuration.** For each topic configuration,
  `getTopicArn` examines only the first event pattern that starts with
  `"s3:" + prefix`. If that pattern does not end with `*` or the action, the
  configuration is rejected, even when a later pattern would have matched
  (`OnlyFirstCandidateExamined`, `FirstCandidateMasksLaterOnes`).

## Model

| member | source | states |
|---|---|---|
| JavaLang.LongToString | src/main/java/net/savantly/aws/S3Notify.java:227-233 | `%s` of the `Long` size, as Long.toString writes it: only `-` and decimal digits; read back by `LongRoundTrip` |
| JavaLang.NatToDecimal | src/main/java/net/savantly/aws/S3Notify.java:227-233 | the decimal digits of a natural number, with no leading zero; read back by `DecimalRoundTrip` |
| JavaLang.LongRoundTrip | src/main/java/net/savantly/aws/S3Notify.java:227-233 | the decimal text a `Long` size is formatted with reads back as the same 64-bit value |
| JavaLang.DecimalRoundTrip | src/main/java/net/savantly/aws/S3Notify.java:227-233 | the digits of a natural number read back as that number |
| JavaLang.IndexOf | src/main/java/net/savantly/aws/S3Notify.java:191 | String.indexOf of a character: the first position holding it, every earlier one not holding it, or the length when absent |
| EventNames.Split | src/main/java/net/savantly/aws/S3Notify.java:191 | no contract of its own: `split(":")`, specified by `JoinPieces`, `PiecesColonFree`, `PiecesAppend` and `SplitIgnoresTrailingDelimiters` |
| EventNames.ExtractEventPrefix | src/main/java/net/savantly/aws/S3Notify.java:190-193 | no contract of its own: extractEventPrefix, specified by `PrefixIsTextBeforeFirstColon` |
| EventNames.ExtractEventSuffix | src/main/java/net/savantly/aws/S3Notify.java:195-202 | no contract of its own: extractEventSuffix, specified by `SuffixIsLastAction` |
| EventNames.JoinPieces | src/main/java/net/savantly/aws/S3Notify.java:191 | joining the `:`-separated pieces with `:` gives back the original text |
| EventNames.PiecesColonFree | src/main/java/net/savantly/aws/S3Notify.java:191 | no piece holds a `:`, so with `JoinPieces` the pieces are exactly the texts between consecutive delimiters |
| EventNames.PiecesAppend | src/main/java/net/savantly/aws/S3Notify.java:191 | a `:` splits the pieces of the text before it from those of the text after it |
| EventNames.SplitIgnoresTrailingColons | src/main/java/net/savantly/aws/S3Notify.java:191 | trailing `:` characters do not change the piece list left once trailing empty pieces are dropped |
| EventNames.SplitIgnoresTrailingDelimiters | src/main/java/net/savantly/aws/S3Notify.java:191 | `split` returns the same as on the text without its trailing `:` characters, exactly unless the text is non-empty and made of `:` alone; that text splits into no piece, while the empty text it trims to gives `[""]` |
| EventNames.PrefixIsTextBeforeFirstColon | src/main/java/net/savantly/aws/S3Notify.java:190-193 | the prefix is the text before the first `:`, or the whole text when it has none; it throws `ArrayIndexOutOfBoundsException` exactly when the name is non-empty and made of `:` alone |
| EventNames.SuffixIsLastAction | src/main/java/net/savantly/aws/S3Notify.java:195-202 | the suffix equals an independent definition: drop the trailing `:` characters, then take the text after the last remaining `:`, or nothing if none remains; a suffix present is non-empty and free of `:` |
| EventNames.FamilyAndAction | src/main/java/net/savantly/aws/S3Notify.java:190-202 | `family:action`, with no `:` in either part and a non-empty action, gives back both parts |
| EventNames.TrailingDelimiterGivesNoAction | src/main/java/net/savantly/aws/S3Notify.java:195-202 | `family:` gives the family and no suffix |
| EventNames.NoColonIsPrefixOnly | src/main/java/net/savantly/aws/S3Notify.java:190-202 | a name without `:` is its own prefix and has no suffix |
| EventNames.LoneDelimiter | src/main/java/net/savantly/aws/S3Notify.java:190-202 | `":"` makes the prefix throw and has no suffix |
| EventNames.DefaultEventName | src/test/java/net/savantly/aws/S3NotifyTest.java:32-48 | `ObjectCreated:Put` gives `ObjectCreated` and `Put`; `ObjectCreated` gives no suffix |
| TopicMatching.SelectTopic | src/main/java/net/savantly/aws/S3Notify.java:168-188 | no contract of its own: getTopicArn's result, specified by `NoTopicWithoutSnsOrConfigurations`, `SelectFromIsFirstMatch` and `TopicScenarios`; the loop `Notify.S3Notify.GetTopicArn` is proved equal to it |
| TopicMatching.SelectFrom | src/main/java/net/savantly/aws/S3Notify.java:175-187 | no contract of its own: the first-match scan, specified by `SelectFromIsFirstMatch`, `LaterConfigurationsIgnored` and `NonQualifyingIgnored` |
| TopicMatching.Qualifies | src/main/java/net/savantly/aws/S3Notify.java:177-181 | no contract of its own: the acceptance test, specified by `OnlyFirstCandidateExamined` and `WildcardAcceptsAnyAction` |
| TopicMatching.Candidate | src/main/java/net/savantly/aws/S3Notify.java:176 | no contract of its own: the first pattern of the family, as `filter(...).findFirst()` gives it; specified through `FirstStartingWith` |
| TopicMatching.FirstStartingWith | src/main/java/net/savantly/aws/S3Notify.java:176 | the index of the first pattern that starts with the text; every earlier pattern does not |
| TopicMatching.FirstQualifying | src/main/java/net/savantly/aws/S3Notify.java:175-185 | the index of the first accepted configuration; every earlier one is rejected |
| TopicMatching.NoTopicWithoutSnsOrConfigurations | src/main/java/net/savantly/aws/S3Notify.java:169-187 | no topic is returned unless SNS is a destination and the bucket has topic configurations |
| TopicMatching.SelectFromIsFirstMatch | src/main/java/net/savantly/aws/S3Notify.java:175-187 | the topic is that of the earliest accepted configuration; there is none exactly when no configuration is accepted |
| TopicMatching.LaterConfigurationsIgnored | src/main/java/net/savantly/aws/S3Notify.java:183 | configurations after the chosen one have no influence |
| TopicMatching.NonQualifyingIgnored | src/main/java/net/savantly/aws/S3Notify.java:175-185 | rejected configurations placed in front do not change the choice |
| TopicMatching.OnlyFirstCandidateExamined | src/main/java/net/savantly/aws/S3Notify.java:176-181 | a configuration is accepted exactly when its first pattern of the requested family ends with `*` or with the suffix; the patterns after it are irrelevant |
| TopicMatching.WildcardAcceptsAnyAction | src/main/java/net/savantly/aws/S3Notify.java:177-179 | a candidate ending in `*` is accepted for any suffix and for none |
| TopicMatching.TopicScenarios | src/main/java/net/savantly/aws/S3Notify.java:168-188 | `s3:ObjectCreated:*` is chosen for `ObjectCreated:Put`; `s3:ObjectRemoved:Delete` is not |
| TopicMatching.FirstCandidateMasksLaterOnes | src/main/java/net/savantly/aws/S3Notify.java:176-181 | the patterns `[s3:ObjectCreated:Copy, s3:ObjectCreated:Put]` do not accept `ObjectCreated:Put` |
| Message.CreateMessageFromTemplate | src/main/java/net/savantly/aws/S3Notify.java:209-238 | no contract of its own: the event message, specified by `MessageRoundTrip` and `ETagIsUnquoted` |
| Message.FormatRoundTrip | src/main/java/net/savantly/aws/S3Notify.java:211-233 | reading a formatted text gives back its arguments, when no argument holds the character that ends it |
| Message.EventTemplateDelimited | src/main/java/net/savantly/aws/S3Notify.java:211-232 | every placeholder of the template but the last is closed by `"`, and the last (the eTag) by a newline |
| Message.MessageRoundTrip | src/main/java/net/savantly/aws/S3Notify.java:209-233 | the message decodes back to its region, time, event name, bucket in both places, key, size and eTag, whenever the quoted values hold no `"` and the eTag no newline |
| Message.ETagIsUnquoted | src/main/java/net/savantly/aws/S3Notify.java:227-233 | the message ends with `"eTag": `, the raw eTag and the closing lines |
| DurationFormat.HumanReadableFormat | src/main/java/net/savantly/aws/S3Notify.java:146-151 | no contract of its own: humanReadableFormat, specified by `HumanReadableFormatSpec` and `HourMinuteSecond` |
| DurationFormat.InsertUnitSpaces | src/main/java/net/savantly/aws/S3Notify.java:149 | no contract of its own: the `replaceAll` scan, specified by `InsertUnitSpacesIsSpaced`, `OnlySpacesInserted` and `NoTrailingSpace` |
| DurationFormat.InsertUnitSpacesIsSpaced | src/main/java/net/savantly/aws/S3Notify.java:149 | the `replaceAll` scan equals the reference definition: a space follows exactly each unit letter that comes after a digit and is not the last character |
| DurationFormat.OnlySpacesInserted | src/main/java/net/savantly/aws/S3Notify.java:149 | removing the spaces from the result gives the input without its spaces |
| DurationFormat.NoTrailingSpace | src/main/java/net/savantly/aws/S3Notify.java:149 | the result is at least as long as the input and ends with the input's last character |
| DurationFormat.HumanReadableFormatSpec | src/main/java/net/savantly/aws/S3Notify.java:146-151 | the result is the lower-cased reference text of the duration after its first two characters; no space is added at the end, which is the input's last character lower-cased |
| DurationFormat.HourMinuteSecond | src/main/java/net/savantly/aws/S3Notify.java:146-151 | `PT1H2M3S` gives `1h 2m 3s` |
| Dispatch.MessageFor | src/main/java/net/savantly/aws/S3Notify.java:204-210 | no contract of its own: the publish call for one object; its message is specified by `MessageRoundTrip` |
| Dispatch.ValidatedStep | src/main/java/net/savantly/aws/S3Notify.java:117-135 | no contract of its own: one validated prefix, specified by `ValidatedStepSnoc` and `ValidatedPrefix` |
| Dispatch.PrefixRun | src/main/java/net/savantly/aws/S3Notify.java:110-136 | no contract of its own: the loop body for one prefix, specified by `BypassPrefix`, `ValidatedPrefix` and `ReportIgnoresEarlierMessages` |
| Dispatch.PrefixesRun | src/main/java/net/savantly/aws/S3Notify.java:106-140 | no contract of its own: the prefix loop, specified by `PrefixesRunSnoc`, `FailureIsFinal`, `CountersResetPerPrefix` and `BypassPrefixes` |
| Dispatch.RunSpec | src/main/java/net/savantly/aws/S3Notify.java:73-140 | no contract of its own: a whole run, specified by `NoOpRun`, `UnreadableEventAborts`, `BypassRun` and `BypassWithoutSnsFails` |
| Dispatch.FlattenAppend | src/main/java/net/savantly/aws/S3Notify.java:118-121 | the objects of the listing are those of its pages, one page after another |
| Dispatch.SelectedAppend | src/main/java/net/savantly/aws/S3Notify.java:120-135 | the processed objects and the skip count split along any split of the listing |
| Dispatch.SelectedIsEligible | src/main/java/net/savantly/aws/S3Notify.java:122-124 | exactly the listed objects without `--match`, or whose key matches it, are processed; processed plus skipped is the number listed |
| Dispatch.NoMatchSelectsAll | src/main/java/net/savantly/aws/S3Notify.java:122 | without `--match` every object is processed and none skipped |
| Dispatch.MessagesAppend | src/main/java/net/savantly/aws/S3Notify.java:204-207 | the messages of a concatenated object list are those of its parts, numbered on |
| Dispatch.ValidatedStepSnoc | src/main/java/net/savantly/aws/S3Notify.java:121-133 | one more object: a non-matching one adds one to skipped; a matching one, when there is a topic, adds one to touched and its message; otherwise nothing changes |
| Dispatch.BypassPrefix | src/main/java/net/savantly/aws/S3Notify.java:113-116 | without validation a prefix publishes one message with the prefix as key, size 100 and eTag `123`, reporting touched 1 and skipped 0; without a topic `optTopicArn.get()` throws `NoSuchElementException` |
| Dispatch.ValidatedPrefix | src/main/java/net/savantly/aws/S3Notify.java:117-136 | with validation skipped counts the non-matching objects and touched counts the messages; with a topic these are the eligible objects' messages in listing order and touched plus skipped is the listing's size; without one nothing is touched |
| Dispatch.ReportIgnoresEarlierMessages | src/main/java/net/savantly/aws/S3Notify.java:110-111 | a prefix's counters do not depend on what was published before it |
| Dispatch.PrefixesRunSnoc | src/main/java/net/savantly/aws/S3Notify.java:106-140 | the loop over one more prefix adds that prefix's report and messages, unless an earlier prefix threw |
| Dispatch.FailureIsFinal | src/main/java/net/savantly/aws/S3Notify.java:106-140 | after an exception no further prefix is processed |
| Dispatch.FailureEndsLoop | src/main/java/net/savantly/aws/S3Notify.java:106-140 | a loop that throws at a prefix ends there |
| Dispatch.PrefixLoopStep | src/main/java/net/savantly/aws/S3Notify.java:106-140 | one turn of the loop either extends the reports and messages by those of the prefix or ends the loop with its exception |
| Dispatch.CountersResetPerPrefix | src/main/java/net/savantly/aws/S3Notify.java:110-111 | each report is that of its prefix on its own; a loop without an exception reports every prefix, and an exception comes from the prefix after the last report |
| Dispatch.NoOpRun | src/main/java/net/savantly/aws/S3Notify.java:88-91 | when SNS is requested and no topic matched, nothing is processed or published |
| Dispatch.UnreadableEventAborts | src/main/java/net/savantly/aws/S3Notify.java:80 | an event name made of `:` alone ends the run before anything is published |
| Dispatch.BypassPrefixes | src/main/java/net/savantly/aws/S3Notify.java:106-116 | without validation and with a topic, the loop reports touched 1 and skipped 0 for each prefix and publishes one mock message per prefix, in order |
| Dispatch.BypassRun | src/main/java/net/savantly/aws/S3Notify.java:73-140 | a bypass run with a topic completes with one report and one message per prefix, in order |
| Dispatch.BypassWithoutSnsFails | src/main/java/net/savantly/aws/S3Notify.java:113-115 | without validation and without SNS among the destinations, the first prefix throws and nothing is published |
| Notify.S3Notify.constructor | src/main/java/net/savantly/aws/S3Notify.java:29-71 | the options and collaborators are as given, and nothing is published yet |
| Notify.S3Notify.GetTopicArn | src/main/java/net/savantly/aws/S3Notify.java:168-188 | the loop returns the topic that `SelectTopic` specifies for the current event fields |
| Notify.S3Notify.SendNotificationToSns | src/main/java/net/savantly/aws/S3Notify.java:204-207 | exactly one publish call is appended: the object's message to the topic |
| Notify.S3Notify.ProcessPage | src/main/java/net/savantly/aws/S3Notify.java:121-134 | the counters and the publish log after one page are those `ValidatedStep` specifies for all objects seen so far |
| Notify.S3Notify.ProcessPrefix | src/main/java/net/savantly/aws/S3Notify.java:110-136 | one prefix's report, exception and publish calls are those `PrefixRun` specifies |
| Notify.S3Notify.ProcessPrefixes | src/main/java/net/savantly/aws/S3Notify.java:105-140 | the loop's reports, exception and publish calls are those `PrefixesRun` specifies |
| Notify.S3Notify.Run | src/main/java/net/savantly/aws/S3Notify.java:73-140 | the outcome and publish calls are those `RunSpec` specifies; debug turns verbose on; the event fields hold the parsed prefix and suffix, and are left unchanged when the prefix throws |

## Left out

- Reading the prefix file (`getPrefixes`) and `System.exit` on failure: file I/O. `Options.prefixes` is the list `getPrefixes` returns.
- The AWS SDK calls themselves: their results are the functions in `Dispatch.Environment`.
  - Errors from `publish`, `listObjectsV2` or `getBucketNotificationConfiguration` are not modelled, so a run ends only by the exceptions the class's own code raises.
- The regular-expression engine: `String.matches` is the abstract `keyMatches`.
  - A malformed `--match` pattern, which throws in Java, is not modelled.
- `Instant.now()`, `Duration.between` and the final "total time" log line of `run()`: clocks.
  - `DurationFormat.HumanReadableFormat` models the formatting of any `Duration.toString()` text.
  - It is proved on its own and is not called from `Run`.
- Logging, including the LAMBDA/SQS "not supported yet" warnings and every message printed only in verbose mode. They do not change state.
  - `verbose` is kept as a field, because `run()` changes it.
- Quarkus/picocli wiring: option parsing, defaults and injection. `Options` holds the parsed values.
- `null` options other than `--match`, and a `null` size or eTag from the SDK: every value is present.
  - The class's event fields start as `""` and `None` where Java has `null`. `run()` assigns them before they are read.
- JSON escaping: the source performs none. `Message.MessageRoundTrip` therefore requires the quoted values to be free of `"`.
- Dispatch.CountersResetPerPrefix: the counters are unbounded naturals; the 64-bit overflow of `AtomicLong` is not modelled, since it would need more than 2^63 objects.
- JavaLang.ToLowerCase: only `A`–`Z` are mapped. Duration text is ASCII, and Java's locale-dependent mapping of other characters is not modelled.
- DurationFormat.InsertUnitSpaces: `$` in `(?!$)` is taken as the end of the input. Java's `$` also matches before a final line terminator, which a duration text never has.
