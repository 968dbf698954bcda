# Story interpreter: a Dafny model

This project models the core of a Given/When/Then story tester. A story is plain text, one sentence per line. The tester:

- splits the text into sentences;
- resolves each sentence to an annotated handler method of a test class (or of one of its superclasses);
- runs the handlers on one test object in story order;
- collects every failed Then sentence into one failure report.

A second entry point falls back to the nested classes of the test class when the class cannot answer the story's first sentence.

The model covers `StoryTesterImpl` and the failure report `StoryTestExceptionImpl`. Java reflection becomes plain data:

- A test class (`Classes.Class`) lists its annotated handlers in declaration order, its declared fields, its superclass, its nested classes, and the field values of a new instance.
- Running a handler is a function parameter (`Classes.Invoker`). It maps the handler, the object's fields and the sentence's parameter to an effect: the handler returns new fields, throws a comparison failure with expected and actual text, or throws anything else.

Every property is therefore stated for every possible handler behaviour.

Modules, in dependency order:

- `Wrappers`: `Option` and `Result`.
- `Text`: string helpers. `Split` is `split("\n")` with Java's removal of trailing empty pieces. `IndexOf` and `LastIndexOf` are how the model locates the split points of the line pattern's groups, and `LastIndexOf` is also the `lastIndexOf(" ")` that `findMethod` uses to cut annotations.
- `Sentences`: the sentence record and its three kinds.
- `Parser`: `parseStory`, including the line pattern `([^ ]+) (.+) ([^ ]+)` under `Matcher.find`.
- `Reports`: the failure report.
- `Classes`: test classes, handlers, field states and the invoker.
- `Resolver`: `findMethod`.
- `Snapshot`: `createBackup` and `restoreBackup`.
- `Engine`: `testOnInheritanceTree`.
- `Nested`: `testOnNestedClasses`.

Behaviour of the code worth noting:

- **First sentence.** The code resolves the first sentence by its own kind. A story that opens with a When or Then sentence runs that handler if one exists. It ends with `GivenNotFound` only when no handler of that kind matches (`Engine.GivenNotFoundIffFirstUnresolved`).
- **Empty story.** An empty story, or one made only of line breaks, is not `GivenNotFound`. Taking its first sentence throws an index error, modelled as `Fatal(EmptyStory)` (`Engine.BlankStoryFails`).
- **Unknown first word.** A line that matches the pattern but opens with a word other than Given, When or Then is dropped silently. Only a line the pattern does not match rejects the story (`Parser.ParseLine`).
- **Given sentences after the first** are passed over (`Engine.GivensIgnored`).

## Model

| member | source | states |
|---|---|---|
| Text.IndexOf | src/solution/StoryTesterImpl.java:88-95 | the first position of the character, with none before it; None exactly when the character does not occur |
| Text.LastIndexOf | src/solution/StoryTesterImpl.java:125 | the last position of the character, with none after it; None exactly when the character does not occur |
| Text.Segments | src/solution/StoryTesterImpl.java:88 | the pieces between separators: none contains the separator and joining them with it gives the string back |
| Text.DropTrailingEmpty | src/solution/StoryTesterImpl.java:88 | a prefix of the pieces, where everything removed is empty and the last piece kept is not |
| Text.Split | src/solution/StoryTesterImpl.java:88 | a string without the separator comes back whole; otherwise a prefix of the pieces whose removed tail is all empty and whose last kept piece is not empty |
| Text.JoinSnoc | src/solution/StoryTesterImpl.java:88 | joining one more piece appends the separator and that piece |
| Text.JoinBlanks | src/solution/StoryTesterImpl.java:88 | joining n more empty pieces appends n separators |
| Text.DropBlanks | src/solution/StoryTesterImpl.java:88 | after a non-empty last piece, exactly the trailing empty pieces are dropped |
| Text.SplitWithTrailingSeps | src/solution/StoryTesterImpl.java:88 | pieces joined and followed by separators split back into the pieces: trailing separators add no pieces |
| Text.SegmentsOfJoin | src/solution/StoryTesterImpl.java:88 | splitting undoes joining when no piece contains the separator |
| Text.JoinContainsSep | src/solution/StoryTesterImpl.java:88 | a joined string contains the separator exactly when more than one piece was joined |
| Text.SplitOfSeparators | src/solution/StoryTesterImpl.java:88 | a string made only of separators splits into no pieces at all |
| Sentences.KindOf | src/solution/StoryTesterImpl.java:96-106 | Given, When and Then give their kind, and any other first word gives none |
| Sentences.KindOfKeyword | src/solution/StoryTesterImpl.java:96-106 | reading a kind's keyword gives that kind back |
| Parser.SplitCore | src/solution/StoryTesterImpl.java:90-95 | the keyword ends at the first space, the parameter starts after the last space, and at least one character lies between |
| Parser.MatchLineSound | src/solution/StoryTesterImpl.java:90-95 | a matched line is exactly its spaces, a keyword word, a space, a non-empty phrase, a space, a parameter word and spaces |
| Parser.MatchLineComplete | src/solution/StoryTesterImpl.java:90-95 | every line of that shape matches and is split back into the same keyword, phrase and parameter |
| Parser.ParseLine | src/solution/StoryTesterImpl.java:89-110 | an error exactly for a line the pattern does not match; a sentence describing its own line for a Given/When/Then line; nothing for any other first word |
| Parser.ParseLines | src/solution/StoryTesterImpl.java:88-112 | the lines parse exactly when every line matches, giving at most one sentence per line |
| Parser.ParseLinesAppend | src/solution/StoryTesterImpl.java:89-111 | parsing two blocks of lines one after the other is parsing their concatenation: the first error wins, otherwise the sentences concatenate |
| Parser.ParseLinesSingle | src/solution/StoryTesterImpl.java:92-110 | one line gives one sentence for Given/When/Then, none for another first word, and rejects the story when it does not match |
| Parser.ParseLinesDescribes | src/solution/StoryTesterImpl.java:92-106 | every parsed sentence comes from one of the lines and describes it |
| Parser.ParseLinesRejects | src/solution/StoryTesterImpl.java:107-110 | a rejected block names a line of the block that the pattern does not match |
| Parser.ParseStory | src/solution/StoryTesterImpl.java:84-86 | a null or empty story has no sentences |
| Parser.ParseStoryOfLines | src/solution/StoryTesterImpl.java:81-112 | a story joined from lines without line breaks, the last one non-empty, parses as those lines |
| Parser.StoryWithTrailingBreaks | src/solution/StoryTesterImpl.java:84-112 | the same story followed by any number of line breaks parses as the same lines |
| Parser.ParseStoryLines | src/solution/StoryTesterImpl.java:81-112 | each sentence of a parsed story describes its line and holds no line break; a rejection names an unmatched line |
| Parser.BlankStory | src/solution/StoryTesterImpl.java:84-88 | a story made only of line breaks has no sentences |
| Parser.ParseRendered | src/solution/StoryTesterImpl.java:90-106 | a sentence written as keyword, phrase and parameter is read back as itself |
| Parser.ParseRenderedLines | src/solution/StoryTesterImpl.java:88-112 | lines written from sentences parse back to exactly those sentences |
| Parser.ParseWrittenStory | src/solution/StoryTesterImpl.java:81-113 | sentences written one per line and joined with line breaks parse back to the same sentences |
| Reports.NewReport | src/solution/StoryTestExceptionImpl.java:11-17 | a new report counts one failure and keeps the sentence, expected and actual text it was given |
| Reports.IncFailCount | src/solution/StoryTestExceptionImpl.java:46-48 | the count grows by one and the first failure's details stay as they are |
| Reports.GettersAfterFailures | src/solution/StoryTestExceptionImpl.java:11-48 | after one construction and n - 1 increments, the getters give n and the first failure's expected and actual text |
| Reports.IncTimesCount | src/solution/StoryTestExceptionImpl.java:46-48 | k increments add exactly k to the count and change nothing else |
| Resolver.AnnotationPhrase | src/solution/StoryTesterImpl.java:125 | the annotation text before its last space, with no space after that one; none when the text has no space |
| Resolver.AnnotationPhraseOf | src/solution/StoryTesterImpl.java:125 | an annotation written as phrase, space and placeholder word stands for exactly that phrase |
| Resolver.FindIn | src/solution/StoryTesterImpl.java:119-148 | NotFound exactly when every handler is skipped; a found handler belongs to the class and matches the sentence's kind and phrase |
| Resolver.FindInFirstStop | src/solution/StoryTesterImpl.java:120-146 | the scan stops at the first handler it does not skip: it returns that handler if it matches, and throws if its annotation has no space |
| Resolver.FindInAppend | src/solution/StoryTesterImpl.java:118-150 | scanning two handler lists in turn is scanning their concatenation |
| Resolver.Resolve | src/solution/StoryTesterImpl.java:115-153 | a found handler matches the sentence |
| Resolver.ResolveScansChain | src/solution/StoryTesterImpl.java:117-150 | resolution is one scan over the class's own handlers, then each superclass's, so the nearest match shadows the others |
| Resolver.ResolveNotFound | src/solution/StoryTesterImpl.java:117-152 | NotFound exactly when every handler of every class in the superclass chain is skipped |
| Snapshot.Capture | src/solution/StoryTesterImpl.java:24-46 | the backup holds exactly the class's declared fields, each with its current value |
| Snapshot.Restore | src/solution/StoryTesterImpl.java:48-55 | declared fields take their saved value (null if none); every other field keeps its value |
| Snapshot.RestoreUndoes | src/solution/StoryTesterImpl.java:24-55 | restoring an earlier backup undoes every change to the declared fields and keeps every change to the other fields |
| Snapshot.RestoreAfterCapture | src/solution/StoryTesterImpl.java:24-55 | restoring right after a backup leaves an object holding all its declared fields unchanged |
| Snapshot.RestoreIdempotent | src/solution/StoryTesterImpl.java:48-55 | restoring twice from one backup is the same as restoring once |
| Engine.StepSentence | src/solution/StoryTesterImpl.java:195-226 | a Given changes nothing; WhenNotFound and ThenNotFound exactly for an unresolved When or Then; a When backs up only when asked to, then runs its handler on the object and keeps what it returns, any throw being fatal; a When or Then whose handler annotation has no space ends the run with BadAnnotation; a Then asks for a new backup; a failure is recorded exactly when the Then handler throws a comparison failure and a backup exists or the class declares no fields, with that failure's expected and actual text and the declared fields restored; without a backup and with fields it is NoBackup |
| Engine.Opening | src/solution/StoryTesterImpl.java:185-192 | EmptyStory (`get(0)`) exactly when there are no sentences; GivenNotFound exactly when the first sentence, whatever its kind, has no handler; an annotation without a space ends with BadAnnotation; otherwise the run goes on exactly when that handler, run on the new instance, returns, and its result becomes the object, and any throw of it is HandlerThrew; no backup exists yet and one is requested |
| Engine.Record | src/solution/StoryTesterImpl.java:218-222 | no failure leaves the report as it is; the first failure creates a report counting one with its sentence, expected and actual text; a later one adds one to the count and keeps the first failure's details |
| Engine.Finish | src/solution/StoryTesterImpl.java:228-230 | an error of the loop is the outcome; otherwise the run fails with the report exactly when one exists and passes exactly when none does |
| Engine.Run | src/solution/StoryTesterImpl.java:185-230 | EmptyStory exactly when there are no sentences; GivenNotFound exactly when the first sentence has no handler; never IllegalArgument; a failure report counts between one and fewer than the sentences, and its first sentence is a Then of the story |
| Engine.TestOnInheritanceTree | src/solution/StoryTesterImpl.java:175-181 | IllegalArgument exactly when the story or the class is null or a line of the story does not match the pattern |
| Engine.RunRest | src/solution/StoryTesterImpl.java:195-227 | the loop stops only with WhenNotFound, ThenNotFound or a fatal error other than EmptyStory, never with GivenNotFound |
| Engine.Collect | src/solution/StoryTesterImpl.java:195-227 | a reference loop listing failures instead of counting them: every failure is a Then sentence of the story, and there are no more failures than sentences |
| Engine.SummaryRecord | src/solution/StoryTesterImpl.java:218-222 | recording one failure and then a list is the same as recording the longer list |
| Engine.RunRestCollects | src/solution/StoryTesterImpl.java:195-230 | the counting loop and the listing loop end the same way, and the report is the summary of the listed failures |
| Engine.CollectAppend | src/solution/StoryTesterImpl.java:195-227 | the trace of two blocks of sentences is the first block's trace continued from where it left the frame |
| Engine.FailingThenListed | src/solution/StoryTesterImpl.java:210-222 | every Then whose handler throws a comparison failure, on the object as the earlier sentences left it, is listed with its expected and actual text unless the run aborts |
| Engine.ListedFailureThrown | src/solution/StoryTesterImpl.java:210-222 | every listed failure is such a Then: its handler threw that comparison failure |
| Engine.RunFailsIffThenFails | src/solution/StoryTesterImpl.java:195-230 | a run past its first sentence raises a report exactly when nothing aborts it and at least one later Then's handler throws a comparison failure |
| Engine.SummaryFromNothing | src/solution/StoryTestExceptionImpl.java:11-48 | starting without a report, no failures leave none, and otherwise the report counts them all and keeps the first one's sentence, expected and actual text |
| Engine.LoopVerdict | src/solution/StoryTesterImpl.java:195-230 | the sentence loop started without a report ends with the same outcome as the verdict on the failures it lists |
| Engine.RunReportsFailures | src/solution/StoryTesterImpl.java:185-230 | the run passes when no Then failed; otherwise one report counts every failed Then and carries the first one's sentence, expected and actual text |
| Engine.GivenNotFoundIffFirstUnresolved | src/solution/StoryTesterImpl.java:186-192 | a run ends with GivenNotFound exactly when the story has a first sentence and nothing resolves it |
| Engine.AbortComesFromSentence | src/solution/StoryTesterImpl.java:195-226 | an error that stops the loop is the error of one of its sentences |
| Engine.NotFoundNamesSentence | src/solution/StoryTesterImpl.java:202-225 | WhenNotFound and ThenNotFound name a later sentence of that kind that no handler matches |
| Engine.CountGivens | src/solution/StoryTesterImpl.java:195-226 | at most the number of sentences, and zero exactly when no sentence is a Given |
| Engine.DropGivensAppend | src/solution/StoryTesterImpl.java:195-226 | dropping the Givens of two blocks in turn is dropping them from the whole, so the other sentences keep their order |
| Engine.DropGivens | src/solution/StoryTesterImpl.java:195-226 | every non-Given sentence is kept, nothing else is, and the length drops by exactly the number of Givens |
| Engine.GivensIgnored | src/solution/StoryTesterImpl.java:195-226 | the loop runs the same with and without its Given sentences |
| Engine.RunIgnoresLaterGivens | src/solution/StoryTesterImpl.java:185-226 | a whole run is unchanged by dropping every Given sentence after the first |
| Engine.WhenGroupBacksUpOnce | src/solution/StoryTesterImpl.java:194-208 | across a group of When sentences the backup is taken at the first of them, if one was requested, and then kept |
| Engine.FailedThenRestoresGroupStart | src/solution/StoryTesterImpl.java:194-217 | a Then that fails after a When group puts every declared field back to its value before that group |
| Engine.MalformedStoryRefused | src/solution/StoryTesterImpl.java:107-110 | a story with a line the pattern does not match is refused with IllegalArgument, whatever the handlers do |
| Engine.EmptyStoryIffNoSentences | src/solution/StoryTesterImpl.java:176-188 | the run ends on the missing first sentence exactly when story and class are given and the story parses to no sentences |
| Engine.BlankStoryFails | src/solution/StoryTesterImpl.java:181-188 | an empty story, or one made only of line breaks, fails on the missing first sentence and not with GivenNotFound |
| Engine.StoryRunsSentences | src/solution/StoryTesterImpl.java:176-181 | a story that parses is run on its sentences |
| Engine.StoryGivenNotFound | src/solution/StoryTesterImpl.java:176-192 | GivenNotFound exactly when the story parses into at least one sentence and every handler in the class and its superclasses skips the first one |
| Nested.Fallback | src/solution/StoryTesterImpl.java:244-249 | the run on the class itself decides unless it is GivenNotFound |
| Nested.FirstDecisive | src/solution/StoryTesterImpl.java:250-262 | reference search: GivenNotFound exactly when every outcome is GivenNotFound; otherwise the first outcome that is not |
| Nested.FirstDecisiveAppend | src/solution/StoryTesterImpl.java:252-262 | searching a concatenation searches the first part and moves on to the second only when the first gives GivenNotFound |
| Nested.FallbackSearchesPreorder | src/solution/StoryTesterImpl.java:244-265 | the fallback is a depth-first search: its outcome is that of the first class in pre-order whose own run is not GivenNotFound |
| Nested.TestOnNestedClasses | src/solution/StoryTesterImpl.java:244-267 | a null story or class gives IllegalArgument; the run on the class itself decides unless it is GivenNotFound; the outcome is the first one in pre-order of the nesting tree that is not GivenNotFound |
| Nested.TryNestedSearches | src/solution/StoryTesterImpl.java:250-262 | the loop over nested classes from the i-th on searches their subtrees in declaration order |
| Nested.NestedOutcome | src/solution/StoryTesterImpl.java:244-265 | GivenNotFound exactly when every class of the nesting tree gives GivenNotFound on its own inheritance tree; otherwise the outcome of the first class in pre-order that does not |

## Left out

- Java reflection: handler lookup through annotations, `setAccessible`, and dispatch on the handler's parameter type (`Integer.parseInt` or plain `String`) are abstracted into the invoker. A bad number or a handler without parameters is one of its `Crashed` effects.
- Method and nested-class order: `getDeclaredMethods` and `getDeclaredClasses` promise no order. The model takes declaration order.
- Several annotations on one handler: not modelled. Each handler has exactly one role.
- Object construction (`createNewObject`), including the enclosing-instance constructor for nested classes: replaced by each class's `init` fields. A constructor that throws is not modelled.
- Backup copies: `clone`, copy constructors and sharing are not modelled. Values are immutable, so storing a value stores a copy.
- Snapshot.Capture: `createBackup` looks up `clone` with `getDeclaredMethod` on the field's declared type, outside its try block. That lookup throws `NoSuchMethodException` for a non-null `Cloneable` value whose declared type does not declare `clone` itself: every array field, a field declared as an interface such as `List`, or a class that inherits `clone`. The exception would end the run at the first When of a group and pass through `testOnNestedClasses`. The model's capture never fails, because values carry no runtime type here.
- `backup` field across calls: the source keeps `backup` on the tester, so a later story on the same tester could restore a backup from an earlier story. The model starts every run without a backup, as a fresh tester does. A Then that fails before any When of the run then ends with `Fatal(NoBackup)` when the class declares fields: restoring them dereferences the missing backup. When the class declares no fields nothing is restored and the failure is recorded.
- `failCount` field on the tester: never read, so it is not modelled.
- Snapshot.Restore: setting a `static final` declared field throws even after `setAccessible(true)`, which would end the run at the first failing Then. The model treats every declared field as settable. Reading such a field in `createBackup` is modelled.
- Engine.StepSentence: a Then handler that throws anything other than a comparison failure is `Fatal(HandlerThrew)`. This covers the cast failure and every other exception alike; which exception escapes is not modelled.
- Reports.IncFailCount: the count is an unbounded natural number. Java's 32-bit wrap-around after 2^31 - 1 failures is not modelled.
- `getSentance` and `toString`: the report keeps the failed sentence itself. Its text form depends on `provided.Sentence.toString`, which is not part of this model.
- Parser.MatchLineSound: the pattern's `.` does not match line terminators other than `\n` (such as `\r`). The model treats every character other than `\n` as matchable.
- Exceptions are folded into one `Engine.Outcome` per run. Exceptions other than the four named errors are grouped by cause in `Engine.Fault`.
