# maven-dockerbuild-plugin: build arguments, placeholders, tags and build callbacks in Dafny

This project models the decision logic of the `dockerbuild` Maven plugin. That logic covers four areas:

- **Placeholder resolver.** The image name template (`%a`, `%b`, `%g`, `%V`) is resolved against the project, the git branch and a timestamp, and each value is sanitized.
- **Binding engine.** It turns the formal `ARG`s of a Dockerfile (name plus optional default; no default means mandatory) into the map of actual build arguments. It comes in four historical variants:
  - the stateful `model/Arguments` object, with its `%base64:`/`%file:` value language;
  - the prefix-dispatch binder of `Arguments`;
  - the binder of the `build` goal;
  - the defaults-and-overrides binder of `Source`.
- **Tag arithmetic of `Source`.** `tag`, `nextTag`, `repositoryTags` and `eat`.
- **Build-result callbacks.** The callback object that collects the docker daemon's answer (`model/BuildListener`, `BuildResults`) and decides what `awaitImageId` returns or throws.

Each source file has its own module; the variants are kept apart:

| module | file | models |
|---|---|---|
| `Placeholders` | placeholders.dfy | model/Placeholders.java |
| `ModelArguments` | model_arguments.dfy | model/Arguments.java (class `Arguments`, `eval`) |
| `ArgumentsBinder` | arguments.dfy | Arguments.java |
| `BuildMojo` | build.dfy | Build.java (`sanitize`, `buildArgs`, the logged `docker build` line) |
| `SourceTags` | source.dfy | Source.java |
| `Callback` | callback.dfy | the state machine both callback classes share |
| `BuildListenerModel` | build_listener.dfy | model/BuildListener.java |
| `BuildResultsModel` | build_results.dfy | BuildResults.java |
| `Binding` | binding.dfy | the bind / override / mandatory passes common to the binders |
| `Formals` | formals.dfy | formal arguments, the `available(...)` listing, artifact file names |
| `ScmLookup` | scm.dfy | `getScm` (identical in both Arguments files) |
| `Utf8`, `Base64` | utf8.dfy, base64.dfy | `String.getBytes(UTF_8)` and `java.util.Base64` encoder, with decoders as inverses |
| `Text`, `Failures`, `Wrappers` | text.dfy, failures.dfy, wrappers.dfy | Java string helpers (ASCII `toLowerCase`, `indexOf`, `lastIndexOf`, `trim`), the exception messages, `Option`/`Result` |

Modelling conventions:

- **Iteration order.** Java `HashMap` iteration order is unspecified. Collections iterated by the source are therefore explicit sequences: formals as `seq<FormalArgument>` with distinct names, explicit arguments and overrides as `seq<(string, string)>`. Every result is stated for any order.
- **Null.** A Java `null` is `None`.
- **Exceptions.** A thrown exception is an `Err` carrying a `Failure` whose `Message()` is the exception's text.
- **Outside inputs.** The git branch (or the reason `git` failed), the clock's formatted timestamp, the build origin, the set of files present in the build directory and the `%file:` filter are inputs.
- **Imperative parts keep their form.** Loops that append to a `StringBuilder`, fill a `HashMap` or fold a maximum are methods with loop invariants. Each is proved equal to a specification function, and the properties are lemmas about that function. The objects whose fields change (`model/Arguments`, `BuildListener`, `BuildResults`, the argument map `eat` consumes) are classes. Each callback method is proved to perform exactly one step of the value-level state machine `Callback.Step`.

Two details of the resolver are easy to get wrong:

- The placeholder resolver has no `-` flag that suppresses a placeholder.
- For a `-SNAPSHOT` version `version()` keeps the hyphen (`substring(0, length - 9 + 1)`), and no `.` comes before the timestamp.

## Model

| member | source | states |
|---|---|---|
| Placeholders.Sanitize | src/main/java/net/oneandone/maven/plugins/dockerbuild/model/Placeholders.java:114-130 | the character loop computes exactly the specification `Sanitized(s)` |
| Placeholders.Sanitized | src/main/java/net/oneandone/maven/plugins/dockerbuild/model/Placeholders.java:114-130 | the sanitized text is never longer than its input |
| Placeholders.SanitizedAlphabet | src/main/java/net/oneandone/maven/plugins/dockerbuild/model/Placeholders.java:119-127 | every output character is one of `[a-z0-9_.-]` |
| Placeholders.SanitizedAt | src/main/java/net/oneandone/maven/plugins/dockerbuild/model/Placeholders.java:121-124 | at any position an upper-case ASCII letter is replaced by its lower-case letter (not dropped) and a kept character is copied, with the text around it sanitized independently |
| Placeholders.SanitizedConcat | src/main/java/net/oneandone/maven/plugins/dockerbuild/model/Placeholders.java:118-129 | sanitizing a concatenation is concatenating the sanitized parts (a per-character filter) |
| Placeholders.SanitizedKeepsKept | src/main/java/net/oneandone/maven/plugins/dockerbuild/model/Placeholders.java:121-122 | a text made only of `[a-z0-9_.-]` is left unchanged |
| Placeholders.SanitizedIdempotent | src/main/java/net/oneandone/maven/plugins/dockerbuild/model/Placeholders.java:114-130 | sanitizing twice gives the same as sanitizing once |
| Placeholders.SanitizedIsKeptOfLowercase | src/main/java/net/oneandone/maven/plugins/dockerbuild/model/Placeholders.java:114-130 | the output is the ASCII-lower-cased input with every character outside `[a-z0-9_.-]` removed, in order, so an order-preserving subsequence of it |
| Placeholders.GroupIsLastSegment | src/main/java/net/oneandone/maven/plugins/dockerbuild/model/Placeholders.java:83-93 | `%g` is the sanitized text after the last `.` of the group id, or the whole sanitized id when it has no dot |
| Placeholders.VersionCases | src/main/java/net/oneandone/maven/plugins/dockerbuild/model/Placeholders.java:96-106 | `%V` of `X-SNAPSHOT` is `sanitize(X + "-" + timestamp)` (the hyphen stays); any other version is just sanitized |
| Placeholders.Resolve | src/main/java/net/oneandone/maven/plugins/dockerbuild/model/Placeholders.java:36-69 | the left-to-right scan, which skips the placeholder letter after `%`, computes exactly the specification `Resolved` |
| Placeholders.ResolvedWithoutPlaceholders | src/main/java/net/oneandone/maven/plugins/dockerbuild/model/Placeholders.java:41-67 | a template without `%` resolves to itself |
| Placeholders.LiteralPrefix | src/main/java/net/oneandone/maven/plugins/dockerbuild/model/Placeholders.java:64-66 | characters before the first `%` are copied unchanged and in order in front of whatever the rest resolves to |
| Placeholders.TrailingPercent | src/main/java/net/oneandone/maven/plugins/dockerbuild/model/Placeholders.java:41-47 | a `%` as the last character, after any prefix that resolves, fails with "invalid placeholder" and the whole template |
| Placeholders.UnknownAfterPercent | src/main/java/net/oneandone/maven/plugins/dockerbuild/model/Placeholders.java:41-63 | after any prefix that resolves, `%` followed by anything but `a`, `b`, `g`, `V` (a second `%` included) fails with "unknown placeholder" and the whole template, whatever follows |
| Placeholders.DoublePercent | src/main/java/net/oneandone/maven/plugins/dockerbuild/model/Placeholders.java:47-62 | `%%` is not an escape: after any prefix that resolves it fails with "unknown placeholder", whatever follows |
| Placeholders.ResolvedCharacters | src/main/java/net/oneandone/maven/plugins/dockerbuild/model/Placeholders.java:41-67 | every character of a resolved name is a sanitized character or a non-`%` character of the template |
| Placeholders.ResolvedPrefix | src/main/java/net/oneandone/maven/plugins/dockerbuild/model/Placeholders.java:41-67 | the scan is left to right: once a prefix resolves, a template extending it resolves to that prefix's output followed by what the rest resolves to, or fails as the rest does |
| Placeholders.ResolveFailures | src/main/java/net/oneandone/maven/plugins/dockerbuild/model/Placeholders.java:43-63 | resolution fails only with "invalid placeholder" (then the template ends in `%`), "unknown placeholder" or the branch failure |
| Placeholders.ReleaseIgnoresClock | src/main/java/net/oneandone/maven/plugins/dockerbuild/model/Placeholders.java:96-112 | with one branch and one timestamp per template, the result is a function of template, project, branch and timestamp, and for a non-snapshot version it does not depend on the timestamp |
| Formals.Available | src/main/java/net/oneandone/maven/plugins/dockerbuild/Arguments.java:143-154 | the listing loop yields "(available build arguments:", then " name" per formal in iteration order, then ")\n" (the same helper is in Build.java, Source.java and model/Arguments.java) |
| Formals.AvailableNamesEach | src/main/java/net/oneandone/maven/plugins/dockerbuild/model/Arguments.java:149-160 | each formal's name appears in the listing, preceded by a space, between the names before it and the names after it |
| ScmLookup.GetScm | src/main/java/net/oneandone/maven/plugins/dockerbuild/Arguments.java:127-141 | (corrected getScm, see Findings) the lookup can only fail with "pomScm argument: scm is not defined in this project", also for a POM without `<scm>` |
| ScmLookup.GetScmPreference | src/main/java/net/oneandone/maven/plugins/dockerbuild/Arguments.java:127-141 | the developer connection is preferred, then the connection; it succeeds iff one is set; it agrees with the code as written whenever the POM has `<scm>` |
| ScmLookup.GetScmAsWritten | src/main/java/net/oneandone/maven/plugins/dockerbuild/Arguments.java:127-141 | as written: succeeds iff the POM has `<scm>` with a developer connection or a connection, preferring the developer connection; without `<scm>` it is the NullPointerException |
| ScmLookup.GetScmWithoutScmSection | src/main/java/net/oneandone/maven/plugins/dockerbuild/Arguments.java:131-132 | without `<scm>` the code as written dereferences null, while the corrected lookup reports "scm is not defined" |
| Binding.BindFormals | src/main/java/net/oneandone/maven/plugins/dockerbuild/Build.java:300-313 | the first loop over the formals computes exactly the specification `Bind` (first failing formal aborts) |
| Binding.BindSucceeds | src/main/java/net/oneandone/maven/plugins/dockerbuild/Arguments.java:72-103 | binding succeeds iff every formal's initial value can be computed |
| Binding.BindKeys | src/main/java/net/oneandone/maven/plugins/dockerbuild/Arguments.java:72-103 | a successful binding has exactly the formal names as keys |
| Binding.BindValues | src/main/java/net/oneandone/maven/plugins/dockerbuild/Arguments.java:72-103 | each formal is bound to its own initial value |
| Binding.BindFirstFailure | src/main/java/net/oneandone/maven/plugins/dockerbuild/Arguments.java:81-99 | the failure reported is that of the first formal that cannot be bound |
| Binding.BindFailureFrom | src/main/java/net/oneandone/maven/plugins/dockerbuild/Arguments.java:72-103 | a binding failure is the failure of some formal |
| Binding.ApplyOverrides | src/main/java/net/oneandone/maven/plugins/dockerbuild/Build.java:314-320 | the override loop computes exactly the specification `Overridden` |
| Binding.OverriddenValues | src/main/java/net/oneandone/maven/plugins/dockerbuild/Build.java:314-320 | overriding succeeds iff every override names a bound key; then the keys are unchanged and each value is its last override, else its bound value |
| Binding.OverriddenFirstUnknown | src/main/java/net/oneandone/maven/plugins/dockerbuild/Arguments.java:104-110 | the first override naming no key fails with that name |
| Binding.OverriddenFailureFrom | src/main/java/net/oneandone/maven/plugins/dockerbuild/Source.java:237-243 | an override failure names one of the override keys |
| Binding.BindAll | src/main/java/net/oneandone/maven/plugins/dockerbuild/Source.java:233-244 | binding then overriding computes exactly `BindAndOverride` |
| Binding.BindAndOverrideValues | src/main/java/net/oneandone/maven/plugins/dockerbuild/Build.java:300-320 | both passes succeed iff every formal binds and every override names a formal; the keys are then the formal names, each bound to its last override or its initial value |
| Binding.BindAndOverrideFailure | src/main/java/net/oneandone/maven/plugins/dockerbuild/Build.java:300-320 | a failure of both passes is a formal's own failure or the unknown-name failure of an override |
| Binding.BindAndOverrideFirstUnknown | src/main/java/net/oneandone/maven/plugins/dockerbuild/Build.java:314-318 | when all formals bind, the first override naming no formal decides the failure |
| Binding.CheckMandatory | src/main/java/net/oneandone/maven/plugins/dockerbuild/Build.java:321-326 | the map is returned (without its nulls) iff no value is null, else the failure names a key bound to null |
| Binding.CheckedOutcomeValues | src/main/java/net/oneandone/maven/plugins/dockerbuild/Arguments.java:104-116 | the whole binder succeeds iff every formal binds, every override names a formal and every final value is non-null; the result then maps exactly the formal names to their final values; "mandatory argument is missing" names a formal whose final value is null |
| ArgumentsBinder.BuildArgs | src/main/java/net/oneandone/maven/plugins/dockerbuild/Arguments.java:61-117 | (corrected getScm) the prefix-dispatch binder is the bind, override and mandatory passes with its own initial values and "unknown argument" failure |
| ArgumentsBinder.PrefixesExclusive | src/main/java/net/oneandone/maven/plugins/dockerbuild/Arguments.java:72-103 | no name has two of the prefixes `artifact`, `pom`, `build`, so each formal is classified exactly once |
| ArgumentsBinder.UnknownPrefixedFails | src/main/java/net/oneandone/maven/plugins/dockerbuild/Arguments.java:81-99 | a `pom` formal other than pomScm fails with "unknown pom argument", a `build` formal other than buildOrigin/buildComment with "unknown build argument", whatever the overrides |
| ArgumentsBinder.InitialByName | src/main/java/net/oneandone/maven/plugins/dockerbuild/Arguments.java:73-103 | a formal binds iff its artifact file exists, it is no unknown `pom`/`build` name and pomScm finds a connection; its final value is null iff it is a null comment or a plain formal without default and override |
| ArgumentsBinder.BuildArgsResult | src/main/java/net/oneandone/maven/plugins/dockerbuild/Arguments.java:72-116 | (corrected getScm) succeeds iff the project provides every formal, every override names a formal and no formal is left null; the result maps exactly the formal names to their last override, else `finalName.<lower-cased suffix>`, the SCM connection (developer connection first), the origin, the comment or the default; a mandatory failure names a formal left null |
| ArgumentsBinder.OverridingKeepsValue | src/main/java/net/oneandone/maven/plugins/dockerbuild/Arguments.java:104-110 | an override replaces a value but never removes one |
| ArgumentsBinder.UnknownOverrideFails | src/main/java/net/oneandone/maven/plugins/dockerbuild/Arguments.java:104-110 | the first override naming no formal fails with "unknown argument" and the available-names listing |
| BuildMojo.Sanitize | src/main/java/net/oneandone/maven/plugins/dockerbuild/Build.java:169-185 | the character loop computes exactly the specification `Sanitized(s)` |
| BuildMojo.Sanitized | src/main/java/net/oneandone/maven/plugins/dockerbuild/Build.java:169-185 | never longer than its input |
| BuildMojo.SanitizedAlphabet | src/main/java/net/oneandone/maven/plugins/dockerbuild/Build.java:176-179 | every output character is one of `[a-z0-9_-]`; no dot survives |
| BuildMojo.SanitizedKeepsKept | src/main/java/net/oneandone/maven/plugins/dockerbuild/Build.java:176-177 | a text made only of `[a-z0-9_-]` is unchanged |
| BuildMojo.SanitizedIdempotent | src/main/java/net/oneandone/maven/plugins/dockerbuild/Build.java:169-185 | sanitizing twice is sanitizing once |
| BuildMojo.SanitizedDropsDots | src/main/java/net/oneandone/maven/plugins/dockerbuild/Build.java:176 | this sanitize equals the placeholder resolver's sanitize with the dots removed |
| BuildMojo.BuildArgs | src/main/java/net/oneandone/maven/plugins/dockerbuild/Build.java:292-327 | the build goal's binder is the bind, override and mandatory passes with artifact files or defaults and "unknown build argument" |
| BuildMojo.BuildArgsResult | src/main/java/net/oneandone/maven/plugins/dockerbuild/Build.java:300-326 | succeeds iff every artifact file exists, every override names a formal and every formal ends with a value; the result maps exactly the formal names to their last override, else `finalName.<lower-cased suffix>` for artifact formals, else the default; a mandatory failure names a formal left without value |
| BuildMojo.UnknownOverrideFails | src/main/java/net/oneandone/maven/plugins/dockerbuild/Build.java:314-320 | the first override naming no formal fails with "unknown build argument" and the listing |
| BuildMojo.RenderCommandLine | src/main/java/net/oneandone/maven/plugins/dockerbuild/Build.java:212-223 | the StringBuilder loop yields `docker build -t "<tag>"`, ` --no-cache` only if asked, one ` --build-arg k=v` per actual in order, ` <context>`, ` ><logfile>` |
| BuildMojo.CommandLineNamesEachArgument | src/main/java/net/oneandone/maven/plugins/dockerbuild/Build.java:216-221 | every bound argument appears as ` --build-arg name=value` between the flags of the entries before and after it |
| BuildMojo.BuildArgFlagsAt | src/main/java/net/oneandone/maven/plugins/dockerbuild/Build.java:216-221 | the flags split around any entry into the flags before, that entry's flag, the flags after |
| BuildMojo.NoCacheOnlyAddsFlag | src/main/java/net/oneandone/maven/plugins/dockerbuild/Build.java:212-215 | `noCache` only inserts ` --no-cache` right after the quoted tag |
| SourceTags.Tag | src/main/java/net/oneandone/maven/plugins/dockerbuild/Source.java:174-184 | `tag` fails (IllegalArgumentException with the input) iff there is no `:`; a tag never contains `:` |
| SourceTags.TagAfterLastColon | src/main/java/net/oneandone/maven/plugins/dockerbuild/Source.java:179-183 | the tag of `repository:tag` is `tag` when the tag has no colon |
| SourceTags.ParseInt | src/main/java/net/oneandone/maven/plugins/dockerbuild/Source.java:195 | a parsed number is within int range and the text starts with a digit or sign |
| SourceTags.NextTag | src/main/java/net/oneandone/maven/plugins/dockerbuild/Source.java:186-204 | the maximum loop computes exactly the intended `NextTagOf` (first tag without colon fails) |
| SourceTags.NextTagBounds | src/main/java/net/oneandone/maven/plugins/dockerbuild/Source.java:186-204 | fails iff some repository tag has no colon; otherwise at least 1, above every numeric tag, and 1 or one more than some numeric tag |
| SourceTags.NextTagAsWritten | src/main/java/net/oneandone/maven/plugins/dockerbuild/Source.java:186-204 | as written: fails exactly when the intended nextTag fails; always an int; equal to the intended value while that fits in an int |
| SourceTags.Int32 | src/main/java/net/oneandone/maven/plugins/dockerbuild/Source.java:203 | Java int addition: the result lies in int range, an in-range value is kept, and Integer.MAX_VALUE + 1 wraps to Integer.MIN_VALUE |
| SourceTags.NextTagOfNothing | src/main/java/net/oneandone/maven/plugins/dockerbuild/Source.java:191-203 | no repository tags give 1 |
| SourceTags.MaxNumberInRange | src/main/java/net/oneandone/maven/plugins/dockerbuild/Source.java:191-198 | the maximum lies between 0 and Integer.MAX_VALUE |
| SourceTags.NextTagAsWrittenAgrees | src/main/java/net/oneandone/maven/plugins/dockerbuild/Source.java:203 | below Integer.MAX_VALUE the int addition and the intended value agree |
| SourceTags.NextTagOverflows | src/main/java/net/oneandone/maven/plugins/dockerbuild/Source.java:203 | at Integer.MAX_VALUE the code as written returns Integer.MIN_VALUE |
| SourceTags.LargestTagParses | src/main/java/net/oneandone/maven/plugins/dockerbuild/Source.java:195 | "2147483647" parses to Integer.MAX_VALUE, so the overflow is reachable |
| SourceTags.RepositoryTags | src/main/java/net/oneandone/maven/plugins/dockerbuild/Source.java:206-220 | the keys are exactly the listed repository tags starting with `repository:`, each mapped to an image carrying it |
| SourceTags.NextTagOfRepositoryTags | src/main/java/net/oneandone/maven/plugins/dockerbuild/Source.java:170-171 | nextTag over the keys repositoryTags returns cannot fail |
| SourceTags.ArgumentMap.Eat | src/main/java/net/oneandone/maven/plugins/dockerbuild/Source.java:222-227 | returns the explicit value if present, else the default; the key is removed and no other entry changes |
| SourceTags.BuildArgs | src/main/java/net/oneandone/maven/plugins/dockerbuild/Source.java:229-245 | defaults then overrides, with "unknown build argument" and no mandatory check |
| SourceTags.BuildArgsValues | src/main/java/net/oneandone/maven/plugins/dockerbuild/Source.java:229-245 | fails iff an override names no formal (the first such name); otherwise the keys are the formal names, each bound to its last override, else its default, which may stay null |
| Callback.FailureMessage | src/main/java/net/oneandone/maven/plugins/dockerbuild/model/BuildListener.java:135 | the failure message is "Docker build failed: " followed by the error text ("null" when there is none) |
| Callback.Step | src/main/java/net/oneandone/maven/plugins/dockerbuild/model/BuildListener.java:49-106 | one callback records at most one throwable, appended after the earlier ones, and only onError on an open object does; the latch never counts back up; the object is closed afterwards iff it was no onStart and it was closed already or it was onError, onComplete or close; "closed implies counted down" is kept |
| Callback.StepReachable | src/main/java/net/oneandone/maven/plugins/dockerbuild/model/BuildListener.java:95-106 | every callback keeps "closed implies the latch has counted down", and the latch never counts back up |
| Callback.RunReachable | src/main/java/net/oneandone/maven/plugins/dockerbuild/model/BuildListener.java:42-106 | every sequence of callbacks from a fresh object keeps that invariant |
| Callback.CloseOpen | src/main/java/net/oneandone/maven/plugins/dockerbuild/model/BuildListener.java:95-106 | close on an open object closes it, closes the current stream if any and counts the latch down; nothing else changes |
| Callback.CloseIdempotent | src/main/java/net/oneandone/maven/plugins/dockerbuild/model/BuildListener.java:96 | close on a closed object changes nothing; closing twice is closing once |
| Callback.ErrorRecordedUnlessClosed | src/main/java/net/oneandone/maven/plugins/dockerbuild/model/BuildListener.java:71-81 | onError is ignored once closed; otherwise it appends the throwable and then closes |
| Callback.StartReopens | src/main/java/net/oneandone/maven/plugins/dockerbuild/model/BuildListener.java:49-52 | onStart stores the stream and reopens; nothing else changes |
| Callback.NextRecords | src/main/java/net/oneandone/maven/plugins/dockerbuild/model/BuildListener.java:55-68 | onNext sets imageId only for a success item, error only for a non-success error item, appends the stream text to the log, and changes nothing else |
| Callback.CompleteCloses | src/main/java/net/oneandone/maven/plugins/dockerbuild/model/BuildListener.java:84-90 | onComplete is close, and leaves the object closed and completed |
| Callback.StreamClosedAtMostOnce | src/main/java/net/oneandone/maven/plugins/dockerbuild/model/BuildListener.java:95-106 | without a new onStart the current stream is closed at most once, and exactly once if the object ends closed |
| Callback.ErrorsFrozenOnceClosed | src/main/java/net/oneandone/maven/plugins/dockerbuild/BuildResults.java:56-66 | once closed, and without a new onStart, no further throwable is recorded and no stream closed |
| Callback.AtMostOneErrorPerStart | src/main/java/net/oneandone/maven/plugins/dockerbuild/model/BuildListener.java:71-81 | between two onStart calls at most one throwable is recorded, appended after the earlier ones, and only if the object closes |
| Callback.NoErrorKeepsErrors | src/main/java/net/oneandone/maven/plugins/dockerbuild/model/BuildListener.java:75 | only onError records throwables |
| Callback.NoSuccessKeepsImageId | src/main/java/net/oneandone/maven/plugins/dockerbuild/model/BuildListener.java:62-63 | only a success item changes the image id |
| Callback.LastSuccessSetsImageId | src/main/java/net/oneandone/maven/plugins/dockerbuild/model/BuildListener.java:62-63 | the image id is the one of the last success item |
| BuildListenerModel.BuildListener.constructor | src/main/java/net/oneandone/maven/plugins/dockerbuild/model/BuildListener.java:42-46 | a new listener is the fresh state: no errors, no image id, no stream, open |
| BuildListenerModel.BuildListener.OnStart | src/main/java/net/oneandone/maven/plugins/dockerbuild/model/BuildListener.java:49-52 | the fields change exactly as one Start step |
| BuildListenerModel.BuildListener.OnNext | src/main/java/net/oneandone/maven/plugins/dockerbuild/model/BuildListener.java:55-68 | the fields change exactly as one Next step |
| BuildListenerModel.BuildListener.OnError | src/main/java/net/oneandone/maven/plugins/dockerbuild/model/BuildListener.java:71-81 | the fields change exactly as one Error step |
| BuildListenerModel.BuildListener.OnComplete | src/main/java/net/oneandone/maven/plugins/dockerbuild/model/BuildListener.java:84-90 | the fields change exactly as one Complete step |
| BuildListenerModel.BuildListener.Close | src/main/java/net/oneandone/maven/plugins/dockerbuild/model/BuildListener.java:95-106 | the fields change exactly as one Close step |
| BuildListenerModel.BuildListener.AwaitImageId | src/main/java/net/oneandone/maven/plugins/dockerbuild/model/BuildListener.java:110-137 | once completed: closes, and returns the (corrected) outcome of the final state, collecting every recorded throwable in order |
| BuildListenerModel.AwaitedPrecedence | src/main/java/net/oneandone/maven/plugins/dockerbuild/model/BuildListener.java:125-136 | recorded throwables win (all of them, in order), then the image id, then "Docker build failed"; it succeeds iff there are no throwables and an image id |
| BuildListenerModel.ErrorMakesAwaitFail | src/main/java/net/oneandone/maven/plugins/dockerbuild/model/BuildListener.java:71-131 | an onError on an open listener makes awaitImageId fail, listing that throwable last |
| BuildListenerModel.AwaitedLastSuccess | src/main/java/net/oneandone/maven/plugins/dockerbuild/model/BuildListener.java:132-133 | without onError callbacks the result is the image id of the last success item |
| BuildListenerModel.AwaitedWithoutSuccess | src/main/java/net/oneandone/maven/plugins/dockerbuild/model/BuildListener.java:134-135 | without onError and success items the build fails with the failure message |
| BuildListenerModel.AsWrittenAgreesUpToOneError | src/main/java/net/oneandone/maven/plugins/dockerbuild/model/BuildListener.java:125-131 | with at most one recorded throwable the code as written and the corrected outcome agree |
| BuildListenerModel.SecondErrorOverwritesCause | src/main/java/net/oneandone/maven/plugins/dockerbuild/model/BuildListener.java:127-129 | a stream restarted after an error and failing again records two throwables; as written, the second initCause throws IllegalStateException |
| BuildListenerModel.AwaitedAsWritten | src/main/java/net/oneandone/maven/plugins/dockerbuild/model/BuildListener.java:110-137 | as written: succeeds iff nothing was recorded and an image id is set; the IllegalStateException of a second initCause occurs iff two or more throwables were recorded, for the second one |
| BuildResultsModel.BuildResults.constructor | src/main/java/net/oneandone/maven/plugins/dockerbuild/BuildResults.java:27-31 | a new object is the fresh state |
| BuildResultsModel.BuildResults.OnStart | src/main/java/net/oneandone/maven/plugins/dockerbuild/BuildResults.java:34-37 | the fields change exactly as one Start step |
| BuildResultsModel.BuildResults.OnNext | src/main/java/net/oneandone/maven/plugins/dockerbuild/BuildResults.java:40-53 | the fields change exactly as one Next step |
| BuildResultsModel.BuildResults.OnError | src/main/java/net/oneandone/maven/plugins/dockerbuild/BuildResults.java:56-66 | the fields change exactly as one Error step |
| BuildResultsModel.BuildResults.OnComplete | src/main/java/net/oneandone/maven/plugins/dockerbuild/BuildResults.java:69-75 | the fields change exactly as one Complete step |
| BuildResultsModel.BuildResults.Close | src/main/java/net/oneandone/maven/plugins/dockerbuild/BuildResults.java:80-91 | the fields change exactly as one Close step |
| BuildResultsModel.BuildResults.AwaitImageId | src/main/java/net/oneandone/maven/plugins/dockerbuild/BuildResults.java:95-125 | once completed: closes, and returns the outcome of the final state |
| BuildResultsModel.AwaitedPrecedence | src/main/java/net/oneandone/maven/plugins/dockerbuild/BuildResults.java:110-124 | the first recorded throwable wins, rethrown iff it is an Error or RuntimeException and wrapped otherwise; then the image id; then "Docker build failed" |
| BuildResultsModel.LaterErrorsIgnored | src/main/java/net/oneandone/maven/plugins/dockerbuild/BuildResults.java:110-119 | throwables after the first never change the outcome |
| BuildResultsModel.FirstErrorDecides | src/main/java/net/oneandone/maven/plugins/dockerbuild/BuildResults.java:56-119 | the first onError on an open object decides the outcome whatever callbacks follow without a new onStart |
| BuildResultsModel.AwaitedLastSuccess | src/main/java/net/oneandone/maven/plugins/dockerbuild/BuildResults.java:120-121 | without onError callbacks the result is the image id of the last success item |
| BuildResultsModel.AwaitedWithoutSuccess | src/main/java/net/oneandone/maven/plugins/dockerbuild/BuildResults.java:122-123 | without onError and success items the build fails with the failure message |
| Utf8.EncodeChar | src/main/java/net/oneandone/maven/plugins/dockerbuild/model/Arguments.java:96 | a character takes 1 to 4 bytes, one byte iff below 0x80 (then equal to the code), later bytes are continuation bytes |
| Utf8.Encode | src/main/java/net/oneandone/maven/plugins/dockerbuild/model/Arguments.java:96 | the byte count lies between the character count and four times it |
| Utf8.DecodeEncodeChar | src/main/java/net/oneandone/maven/plugins/dockerbuild/model/Arguments.java:96 | the strict decoder reads back each encoded character, whatever follows |
| Utf8.DecodeEncode | src/main/java/net/oneandone/maven/plugins/dockerbuild/model/Arguments.java:96 | decoding the UTF-8 bytes of a text gives the text back |
| Utf8.EncodeConcat | src/main/java/net/oneandone/maven/plugins/dockerbuild/model/Arguments.java:96 | encoding distributes over concatenation |
| Utf8.AsciiEncoding | src/main/java/net/oneandone/maven/plugins/dockerbuild/model/Arguments.java:96 | ASCII text encodes one byte per character, equal to its code |
| Base64.Encode | src/main/java/net/oneandone/maven/plugins/dockerbuild/model/Arguments.java:96 | the encoding is empty iff the bytes are |
| Base64.ValuesOfSymbols | src/main/java/net/oneandone/maven/plugins/dockerbuild/model/Arguments.java:96 | the alphabet of RFC 4648 section 4 is read back symbol by symbol |
| Base64.UnsextetsOfSextets | src/main/java/net/oneandone/maven/plugins/dockerbuild/model/Arguments.java:96 | regrouping the six-bit values gives the bytes back |
| Base64.DecodeEncode | src/main/java/net/oneandone/maven/plugins/dockerbuild/model/Arguments.java:96 | decoding the base64 text gives the bytes back |
| Base64.EncodeLength | src/main/java/net/oneandone/maven/plugins/dockerbuild/model/Arguments.java:96 | every started group of three bytes takes four characters |
| Base64.PaddingAtEnd | src/main/java/net/oneandone/maven/plugins/dockerbuild/model/Arguments.java:96 | padding occurs only in the last two positions and only when the length is not a multiple of 3 |
| ModelArguments.Eval | src/main/java/net/oneandone/maven/plugins/dockerbuild/model/Arguments.java:81-115 | a value not starting with `%` is returned unchanged; a `%` value without `:` fails with "invalid value"; only `%` values can fail |
| ModelArguments.EvalLiteral | src/main/java/net/oneandone/maven/plugins/dockerbuild/model/Arguments.java:112-114 | a value not starting with `%` is returned unchanged |
| ModelArguments.EvalWithoutColon | src/main/java/net/oneandone/maven/plugins/dockerbuild/model/Arguments.java:88-91 | a `%` value without `:` fails with "invalid value" |
| ModelArguments.EvalDirective | src/main/java/net/oneandone/maven/plugins/dockerbuild/model/Arguments.java:92-93 | the directive is the text between `%` and the first `:`; the remainder is evaluated first and its failure wins |
| ModelArguments.EvalBase64 | src/main/java/net/oneandone/maven/plugins/dockerbuild/model/Arguments.java:95-96 | `%base64:v` succeeds iff `v` evaluates, and yields the base64 text of the UTF-8 bytes of its value, which decodes back to that value |
| ModelArguments.EvalBase64Hi | src/main/java/net/oneandone/maven/plugins/dockerbuild/model/Arguments.java:95-96 | `%base64:hi` evaluates to `aGk=` |
| ModelArguments.EvalUnknownDirective | src/main/java/net/oneandone/maven/plugins/dockerbuild/model/Arguments.java:109-110 | any directive other than `base64` and `file`, the empty one included, fails with "unknown directive" |
| ModelArguments.Arguments.constructor | src/main/java/net/oneandone/maven/plugins/dockerbuild/model/Arguments.java:42-46 | starts with the given formals and an empty result |
| ModelArguments.Arguments.AddArtifacts | src/main/java/net/oneandone/maven/plugins/dockerbuild/model/Arguments.java:49-66 | the loop performs the specification `Artifacts`; on failure the result holds the formals before the missing artifact file, which is the one reported |
| ModelArguments.Arguments.AddExplicit | src/main/java/net/oneandone/maven/plugins/dockerbuild/model/Arguments.java:68-79 | the loop performs the specification `Explicit`; on failure the result holds the arguments before the failing one |
| ModelArguments.Arguments.Result | src/main/java/net/oneandone/maven/plugins/dockerbuild/model/Arguments.java:117-129 | defaults fill the unbound formals in place, then the mandatory check decides |
| ModelArguments.ArtifactsResult | src/main/java/net/oneandone/maven/plugins/dockerbuild/model/Arguments.java:55-65 | succeeds iff every artifact file exists; only `artifact` formals are written, each as `artifactName.<lower-cased suffix>`; every other key is unchanged |
| ModelArguments.ExplicitUnknownName | src/main/java/net/oneandone/maven/plugins/dockerbuild/model/Arguments.java:74-75 | an argument naming no formal fails with "unknown argument" and the listing of all formal names |
| ModelArguments.ExplicitResult | src/main/java/net/oneandone/maven/plugins/dockerbuild/model/Arguments.java:72-78 | succeeds iff every argument names a formal and evaluates; the keys grow by the argument names and each holds its last argument's evaluated value |
| ModelArguments.DefaultedKeys | src/main/java/net/oneandone/maven/plugins/dockerbuild/model/Arguments.java:118-122 | after defaulting the keys are the old keys plus the formal names, and bound keys keep their values |
| ModelArguments.DefaultedDefaults | src/main/java/net/oneandone/maven/plugins/dockerbuild/model/Arguments.java:119-120 | an unbound formal receives its default |
| ModelArguments.ResultOutcome | src/main/java/net/oneandone/maven/plugins/dockerbuild/model/Arguments.java:117-129 | result() succeeds iff no bound value is null and every unbound formal has a default; its keys are then a superset of the formal names; a failure is "mandatory argument is missing" for a key left null |

## Left out

- Docker daemon calls are not modelled: `Build.build`, the `buildImageCmd` execution in `doBuild`, `Base.doExecute`, `Push` and `Source.build`'s push. They are network clients.
- Tar packaging (`Build.tar`, `Context.tar`) is not modelled. It is byte-stream I/O.
- Context materialisation and file copies are not modelled: `Context.create`, `initContext`, `createContext`, and the copy in `addArtifacts`/`buildArgs`. The existence check (`checkFile`) is the set `existing` of file names in the directory, and the context receives the same file name.
- The git subprocess behind `%b` and `getOriginOrUnknown`, the host lookup in `origin()` and the clock in `timestamp()` are not modelled. Their results are inputs.
- `%file:` directive: `MavenFileFilter.copyFile` and the temp file are a `FileFilter` parameter (a function from file name to text or failure).
- The `CountDownLatch` wait and its `InterruptedException` are not modelled. `awaitImageId` requires the latch to have counted down. An `IOException` from `stream.close()` is not modelled; closing a stream is recorded in `closedStreams`.
- Logging (`log.info`, `log.debug`) is left out. The log file text written by `onNext` is kept as `log`.
- `BuildArgument.scan`, the `stool.docker` types and `getLabels` are not part of this model. Formals are an input sequence and images are `ImageInfo(id, repositoryTags)`.
- `Properties.java` is not part of this model. It only stores `resolve` output into project properties.
- `HashMap` iteration order: the mandatory check names some key bound to null rather than the first one in hash order, and `repositoryTags` keeps the last image in input order for a tag listed by several images.
- Java strings are sequences of Unicode scalar values here. Unpaired UTF-16 surrogates, which `getBytes(UTF_8)` replaces with `?`, cannot be expressed. `toLowerCase` is restricted to ASCII, as every lower-cased text in the core is a formal name suffix or a character already tested to be `A`-`Z`.
- ArgumentsBinder.BuildArgs: uses the corrected getScm, so a POM without `<scm>` and a formal pomScm give "scm is not defined" where Arguments.java:132 throws a NullPointerException (see Findings; ScmLookup.GetScmAsWritten is that behaviour).
- Placeholders.Resolved: takes one branch (or git failure) and one timestamp per template, while `%b` runs git and `%V` reads the clock at every occurrence (model/Placeholders.java:53, 59, 73, 103); two occurrences that see different answers are not modelled.
- Null values in explicit arguments and overrides are not modelled: those maps hold strings, while Java lets a null value reach `eval` (a NullPointerException at model/Arguments.java:87) or be stored as an override (Arguments.java:109, Build.java:319, Source.java:242).
- SourceTags.ParseInt: accepts ASCII digits only, while `Integer.parseInt` also accepts other Unicode decimal digits (Source.java:195); such a tag is treated as non-numeric here.
- SourceTags.ArgumentMap.Eat: the map holds no null values, so the Java case of a key present with value null (returning the default) does not arise.

## Findings

| source | as written | input that shows it | evidently intended | confidence | as-written member | corrected member |
|---|---|---|---|---|---|---|
| src/main/java/net/oneandone/maven/plugins/dockerbuild/Arguments.java:131-132 | `getScm` calls `scm.getDeveloperConnection()` on `project.getScm()` without a null check (model/Arguments.java has the same private method, which nothing calls) | a POM without `<scm>` and a Dockerfile with `ARG pomScm` | fail with "pomScm argument: scm is not defined in this project" | not executed | ScmLookup.GetScmWithoutScmSection | ScmLookup.GetScmPreference |
| src/main/java/net/oneandone/maven/plugins/dockerbuild/Source.java:203 | `max + 1` in int arithmetic | an image tagged `app:2147483647` | a next tag above every existing numeric tag | not executed | SourceTags.NextTagOverflows | SourceTags.NextTagBounds |
| src/main/java/net/oneandone/maven/plugins/dockerbuild/model/BuildListener.java:126-129 | `initCause` is called once per recorded throwable, and a second call throws IllegalStateException | onStart, onError, onStart, onError, then awaitImageId | a MojoExecutionException carrying every recorded throwable | not executed | BuildListenerModel.SecondErrorOverwritesCause | BuildListenerModel.AwaitedPrecedence |
