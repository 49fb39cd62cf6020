# Biarc association mapper, tagged pairs and EMR job runner — a Dafny model

This project models the core of a Hadoop MapReduce job that reads the
Google syntactic-n-gram "biarcs" corpus and counts lexemes. It covers
three parts:

- **The mapper** (`associations.BiarcAnalyzer.MapperClass.map`). Each input
  line holds a head word, a space-separated list of tokens of the form
  `word/pos-tag/dep-label/head-index`, a total count, and more. The mapper
  stems the first part of every token. It then walks the tokens in order.
  For each well-formed token with a positive head index, it writes the pair
  `(Lexeme, stem of the head token) -> (Count, total count)`. A head word is
  written at most once per line.
- **The key/value type** (`helpers.TaggedPair`). This is a `(Tag, Text)`
  pair with structural equality, an order (tag first, then the text's
  bytes), and a wire form (the tag's name, then the text).
- **The job orchestrator** (`services.EmrService`). It collects Hadoop steps,
  submits them as one EMR job flow with a fixed cluster topology, and polls
  the cluster until it is `TERMINATED` (returns the job-flow id) or
  `TERMINATED_WITH_ERRORS` (returns null).

Layout, one module per file:

| file | module | what it holds |
|---|---|---|
| `wrappers.dfy` | `Wrappers` | `Option`, `Result` |
| `java_text.dfy` | `JavaText` | the Java library behaviour the core relies on: `String.split` with limit 0, `Integer.parseInt`, `Long.parseLong`, `String.valueOf(long)`, 32-bit `int` wrap-around, UTF-8 |
| `hadoop_io.dfy` | `HadoopIo` | `Text.compareTo`'s byte order, `writeInt`/`readInt`, `WritableUtils` variable-length ints and strings, `Text.write`/`readFields`, and the `DataOutput`/`DataInput` streams |
| `associations.dfy` | `Associations` | the `Tag` enum: ordinal, name, the bytes of its name, `valueOf` |
| `tagged_pair.dfy` | `TaggedPairs` | the pair value, `compareTo`, the wire form, and the `TaggedPair` class with `Write` and `ReadFields` |
| `biarc_analyzer.dfy` | `BiarcAnalyzer` | the mapper: `ParseRecord` (everything before the loop), the `WriteHeads` loop, the `MapperClass` object, and a fold (`Run`) over per-token actions that specifies the loop |
| `emr_service.dfy` | `Services` | the EMR client oracle, the `EmrService` class, and the `Wait` function that specifies its polling loop |

Modelling choices:

- **Exceptions.** An exception becomes an error value. When `map` throws
  inside its loop, the pairs already handed to `context.write` stay
  written. So the mapper returns what it wrote *and* the exception it
  ended with.
- **The AWS client.** The client is an oracle object. `runJobFlow` answers
  with a fixed id. `describeCluster` answers with the next status of a
  finite observed sequence, and answers `None` once that sequence is
  exhausted. The poll loop's `decreases` is the number of statuses left.
  Running out of statuses is reported as `StillPolling`, not as a return
  value.
- **Printing.** The "switched from … to …" message is kept as a log
  out-parameter. All other printing is dropped.

## Model

| member | source | states |
|---|---|---|
| JavaText.SplitAll | src/main/java/associations/BiarcAnalyzer.java:37-38 | every piece of the unfiltered split is free of the delimiter, and there is at least one piece |
| JavaText.JoinSplitAll | src/main/java/associations/BiarcAnalyzer.java:37-38 | splitting loses nothing: joining the pieces with the delimiter gives back the string |
| JavaText.Split | src/main/java/associations/BiarcAnalyzer.java:37-38 | `split` with limit 0. No piece contains the delimiter. A string without the delimiter gives `[s]` (the empty string gives `[""]`). Otherwise the result is the full split with only empty trailing pieces removed, and its last piece is non-empty |
| JavaText.SplitEmptyIffOnlyDelimiters | src/main/java/associations/BiarcAnalyzer.java:42-46 | `split` returns no piece at all exactly when the string is non-empty and made only of the delimiter, which is when `s[0]` in the stream map throws |
| JavaText.WrapInt | src/main/java/associations/BiarcAnalyzer.java:56 | the Java `int` result of an arithmetic value: in `int` range, unchanged when already in range, and congruent modulo 2^32 |
| JavaText.ParseInt | src/main/java/associations/BiarcAnalyzer.java:56 | `Integer.parseInt` succeeds only with a value in `int` range |
| JavaText.ParseLong | src/main/java/associations/BiarcAnalyzer.java:39 | `Long.parseLong` succeeds only with a value in `long` range |
| JavaText.NatToString | src/main/java/associations/BiarcAnalyzer.java:62 | decimal digits with no leading zero |
| JavaText.LongRoundTrip | src/main/java/associations/BiarcAnalyzer.java:62 | `Long.parseLong(String.valueOf(n)) == n` for every `long` n |
| JavaText.ParseIntRoundTrip | src/main/java/associations/BiarcAnalyzer.java:56 | `Integer.parseInt` reads back the decimal form of every `int` |
| JavaText.LongToString | src/main/java/associations/BiarcAnalyzer.java:62 | `String.valueOf(long)`: never empty, with a leading `-` exactly for negative values. That the rest is decimal digits with no leading zero follows from `JavaText.LongRoundTrip` and `JavaText.ReprintIsCanonical` |
| JavaText.ReprintIsCanonical | src/main/java/associations/BiarcAnalyzer.java:39 | the count as printed back parses to the same value, and has no `+` and no leading zeros (so `"+007"` is printed `"7"`) |
| JavaText.EncodeChar | src/main/java/associations/BiarcAnalyzer.java:62 | one character is 1 to 4 UTF-8 bytes |
| JavaText.EncodeCharDecodes | src/main/java/associations/BiarcAnalyzer.java:62 | a character's UTF-8 bytes give back its length from the first byte and its scalar value |
| JavaText.Utf8 | src/main/java/associations/BiarcAnalyzer.java:62 | the bytes `new Text(s)` stores: between one and four bytes per character |
| JavaText.EncodeCharPrefixFree | src/main/java/associations/BiarcAnalyzer.java:62 | a byte string starts with at most one character's encoding: equal streams that each start with an encoded character start with the same character and continue alike |
| JavaText.Utf8Injective | src/main/java/associations/BiarcAnalyzer.java:62 | `new Text(s)` is injective: different strings have different bytes |
| JavaText.Utf8Ascii | src/main/java/helpers/TaggedPair.java:22 | an ASCII string's UTF-8 form is one byte per character, the character's code |
| JavaText.Utf16Length | src/main/java/associations/BiarcAnalyzer.java:45 | `toCharArray().length`: between one and two UTF-16 units per character, and exactly one per character when none lies outside the Basic Multilingual Plane |
| HadoopIo.CompareBytesAntisymmetric | src/main/java/helpers/TaggedPair.java:35 | swapping the texts negates `Text.compareTo` |
| HadoopIo.CompareBytesZero | src/main/java/helpers/TaggedPair.java:35 | `Text.compareTo` is 0 exactly for equal byte strings |
| HadoopIo.CompareBytesTransitive | src/main/java/helpers/TaggedPair.java:35 | `Text.compareTo` is transitive |
| HadoopIo.CompareBytes | src/main/java/helpers/TaggedPair.java:35 | `Text.compareTo` of the bytes: a byte string that is a prefix of the other compares by length, so a proper prefix sorts first |
| HadoopIo.CompareBytesFirstDifference | src/main/java/helpers/TaggedPair.java:35 | past a common prefix, the first differing bytes decide the comparison, each read unsigned |
| HadoopIo.ReadFully | src/main/java/helpers/TaggedPair.java:28-29 | reading n bytes succeeds exactly when n bytes are left, and splits the input into those bytes and the rest |
| HadoopIo.EncodeInt | src/main/java/helpers/TaggedPair.java:22 | `writeInt` of a length: four bytes whose big-endian value is the length |
| HadoopIo.ReadInt | src/main/java/helpers/TaggedPair.java:28 | `readInt` succeeds exactly when four bytes are left, yields an `int`, and consumes exactly those four bytes |
| HadoopIo.EncodeVInt | src/main/java/helpers/TaggedPair.java:23 | `writeVInt` of a length: 1 to 5 bytes, one byte exactly for 0..127, and the first byte announces the total size as `decodeVIntSize` reads it |
| HadoopIo.ReadVLong | src/main/java/helpers/TaggedPair.java:29 | `readVLong` succeeds exactly when the size its first byte announces is available, consumes exactly that many bytes, and yields a `long` |
| HadoopIo.EncodeString | src/main/java/helpers/TaggedPair.java:22 | `writeString`: a four-byte length and then exactly the string's bytes |
| HadoopIo.ReadString | src/main/java/helpers/TaggedPair.java:28 | `readString` consumes the four-byte length and then the string's bytes (none for null), leaving what follows |
| HadoopIo.StringEnd | src/main/java/helpers/TaggedPair.java:28 | where `readString` leaves the stream, whether it returns or throws: a tail of the input. It is past the string on success, past the length on a negative length, and at the end after end of file |
| HadoopIo.EncodeText | src/main/java/helpers/TaggedPair.java:23 | `Text.write`: one to five length bytes and then exactly the text's bytes |
| HadoopIo.ReadText | src/main/java/helpers/TaggedPair.java:29 | `Text.readFields` consumes the length and then exactly the bytes it yields, leaving what follows |
| HadoopIo.TextEnd | src/main/java/helpers/TaggedPair.java:29 | where `Text.readFields` leaves the stream, whether it returns or throws: a tail of the input. It is past the text on success, past the length when the length is too wide or negative, and at the end after end of file |
| HadoopIo.IntRoundTrip | src/main/java/helpers/TaggedPair.java:22-28 | `readInt` reads back what `writeInt` wrote, leaving the following bytes |
| HadoopIo.ReadVInt | src/main/java/helpers/TaggedPair.java:29 | `readVInt` yields only values in `int` range |
| HadoopIo.VIntRoundTrip | src/main/java/helpers/TaggedPair.java:23-29 | `readVInt` reads back what `writeVInt` wrote, leaving the following bytes |
| HadoopIo.StringRoundTrip | src/main/java/helpers/TaggedPair.java:22-28 | `WritableUtils.readString` reads back what `writeString` wrote |
| HadoopIo.TextRoundTrip | src/main/java/helpers/TaggedPair.java:23-29 | `Text.readFields` reads back what `Text.write` wrote |
| HadoopIo.DataOutput.Write | src/main/java/helpers/TaggedPair.java:21-24 | a write appends its bytes to the stream |
| Associations.NameBytes | src/main/java/associations/Associations.java:6-10 | the bytes of a tag's name are as many as its characters, at most 7 |
| Associations.NameBytesAreUtf8 | src/main/java/helpers/TaggedPair.java:22 | those bytes are the UTF-8 encoding of the constant's name |
| Associations.ValueOf | src/main/java/helpers/TaggedPair.java:28 | `Tag.valueOf` gives t exactly when the bytes read are t's name, and fails otherwise |
| Associations.NameBytesDistinct | src/main/java/associations/Associations.java:6-10 | the three constants have different names on the wire |
| Associations.Ordinal | src/main/java/associations/Associations.java:6-10 | `ordinal()`: the declaration position, below 3: Lexeme 0, Feature 1, Count 2, each ordinal belonging to exactly one constant |
| Associations.Name | src/main/java/associations/Associations.java:6-10 | `toString()` of a constant: 5 to 7 characters, all ASCII, so one UTF-8 byte each on the wire |
| TaggedPairs.CompareTo | src/main/java/helpers/TaggedPair.java:33-37 | `compareTo`: the tag decides first (Lexeme < Feature < Count), whatever the texts; equal tags defer to `Text.compareTo` of the texts |
| TaggedPairs.CompareZeroIffEqual | src/main/java/helpers/TaggedPair.java:14-37 | `compareTo` is 0 exactly when the Lombok-generated `equals` holds |
| TaggedPairs.CompareAntisymmetric | src/main/java/helpers/TaggedPair.java:33-37 | `a.compareTo(b) == -b.compareTo(a)` |
| TaggedPairs.CompareTransitive | src/main/java/helpers/TaggedPair.java:33-37 | `compareTo` is transitive |
| TaggedPairs.StrictTotalOrder | src/main/java/helpers/TaggedPair.java:33-37 | "sorts before" is irreflexive and transitive, and orders any two distinct pairs |
| TaggedPairs.Encode | src/main/java/helpers/TaggedPair.java:21-24 | the bytes `write` produces: the tag's name right after its four-byte length, and the text's bytes at the very end |
| TaggedPairs.DecodeTag | src/main/java/helpers/TaggedPair.java:28 | the first statement of `readFields`: on success the string read is the name of the tag produced; it fails with an unknown name exactly when a non-null name that is no constant's was read |
| TaggedPairs.DecodeText | src/main/java/helpers/TaggedPair.java:29 | the second statement of `readFields`: succeeds exactly when `Text.readFields` does, and the text is the bytes right after the length |
| TaggedPairs.Decode | src/main/java/helpers/TaggedPair.java:27-30 | `readFields` as a whole: a failing name read fails it before the text is read; on success the tag is the decoded name's, and the text and the rest are together shorter than the input |
| TaggedPairs.DecodeReadsPrefix | src/main/java/helpers/TaggedPair.java:27-30 | on success, the text read and the bytes left unread are the tail of the input, so `readFields` consumes only a prefix |
| TaggedPairs.RoundTrip | src/main/java/helpers/TaggedPair.java:21-30 | reading the fields back from what `write` wrote gives the same pair and consumes exactly those bytes |
| TaggedPairs.UnknownNameRejected | src/main/java/helpers/TaggedPair.java:28 | `readFields` fails on any name other than the three constants' names |
| TaggedPairs.TaggedPair.Of | src/main/java/helpers/TaggedPair.java:15-18 | `TaggedPair.of(tag, text)` holds the given fields |
| TaggedPairs.TaggedPair.Write | src/main/java/helpers/TaggedPair.java:21-24 | appends the tag's name (length-prefixed) and then the text (length-prefixed) to the stream, in that order |
| TaggedPairs.TaggedPair.ReadFields | src/main/java/helpers/TaggedPair.java:27-30 | Covers every failure path. A bad or unknown name leaves both fields unchanged. A failure in the text comes after the tag has already been overwritten. On success both fields are the decoded pair and the input is advanced past it. It succeeds exactly when the bytes decode. After a failure the input stays consumed as far as the failing read took it (`StringEnd`, `TextEnd`) |
| TaggedPairs.WriteThenReadFields | src/main/java/helpers/TaggedPair.java:21-30 | a pair written and read into another object by `readFields` comes back equal |
| BiarcAnalyzer.ParseRecord | src/main/java/associations/BiarcAnalyzer.java:37-50 | the statements before the loop succeed only when the line has 3 or more tab-separated fields and the third parses as a `long`, which becomes the count |
| BiarcAnalyzer.Dedup | src/main/java/associations/BiarcAnalyzer.java:60-63 | the head words that pass the `HashSet` test have no duplicates and are the same set of words as all heads met |
| BiarcAnalyzer.Emit | src/main/java/associations/BiarcAnalyzer.java:62 | the pair written for a head word: key `(Lexeme, bytes of the stem)`, value tagged Count |
| BiarcAnalyzer.Extract | src/main/java/associations/BiarcAnalyzer.java:51-64 | the loop's outcome: at most one write per token, and an exception only from a head index (never a missing field, bad count or empty token) |
| BiarcAnalyzer.MapLine | src/main/java/associations/BiarcAnalyzer.java:35-67 | `map` on one line: an exception raised before the loop (missing field, bad count, empty token) comes with nothing written |
| BiarcAnalyzer.MapperClass.constructor | src/main/java/associations/BiarcAnalyzer.java:28-29 | a new mapper has no stemmer yet |
| BiarcAnalyzer.MapperClass.Setup | src/main/java/associations/BiarcAnalyzer.java:31-33 | after `setup` the stemmer exists |
| BiarcAnalyzer.MapperClass.Map | src/main/java/associations/BiarcAnalyzer.java:35-67 | what `map` writes, and the exception it ends with, are those of `MapLine` on the line |
| BiarcAnalyzer.WriteHeads | src/main/java/associations/BiarcAnalyzer.java:51-64 | the loop writes `Emit` of the de-duplicated head words of the tokens before the first failing token, in order, and then ends with that token's exception |
| BiarcAnalyzer.RunStopsAtFailure | src/main/java/associations/BiarcAnalyzer.java:51-64 | once a token has thrown, later tokens change nothing |
| BiarcAnalyzer.FieldFailures | src/main/java/associations/BiarcAnalyzer.java:37-39 | fewer than 3 tab-separated fields, or a third field that is not a `long`, makes `map` fail before writing anything |
| BiarcAnalyzer.EmptyTokenFails | src/main/java/associations/BiarcAnalyzer.java:42-50 | with good fields, `map` writes nothing and fails on an empty token exactly when some token is non-empty and made only of `/` |
| BiarcAnalyzer.EveryTokenIsStemmed | src/main/java/associations/BiarcAnalyzer.java:42-50 | every token is stemmed, malformed ones too: `words[i]` is the stem of token i's first `/`-part, so head indices count every token |
| BiarcAnalyzer.TokenAction | src/main/java/associations/BiarcAnalyzer.java:52-59 | one pass of the loop: a head is one of the record's stems and comes only from a 4-part token; an exception comes only from a 4-part token's head index |
| BiarcAnalyzer.TokenRules | src/main/java/associations/BiarcAnalyzer.java:52-59 | Per-token rules. Without 4 parts: skipped. Head index not an `int`: fails. `INT_MIN < h <= 0`: skipped. `h` past the last token, or `h == INT_MIN` (wraps to `INT_MAX`): fails. Otherwise it yields `words[h-1]`, and yields a head exactly when it refers to that head |
| BiarcAnalyzer.HeadsOfPrefix | src/main/java/associations/BiarcAnalyzer.java:51-63 | after the first n tokens, the head words met are exactly the stems those tokens refer to |
| BiarcAnalyzer.EmittedKeysAreHeadStems | src/main/java/associations/BiarcAnalyzer.java:51-63 | on a line that throws nothing, the written keys are exactly `(Lexeme, stem)` for the stems `words[h-1]` of well-formed tokens with `h >= 1` (both directions) |
| BiarcAnalyzer.WrittenPairsAreDistinctLexemeCounts | src/main/java/associations/BiarcAnalyzer.java:60-62 | no key is written twice in a line; every key is tagged Lexeme, and every value is `(Count, String.valueOf(total count))` |
| BiarcAnalyzer.FailureKeepsEarlierWrites | src/main/java/associations/BiarcAnalyzer.java:51-64 | when the loop throws, it does so at the first failing token, and what was written is exactly what the line cut before that token writes |
| BiarcAnalyzer.FirstFailure | src/main/java/associations/BiarcAnalyzer.java:51-64 | the index of the first failing token: none before it fails, and it fails unless it is past the end |
| BiarcAnalyzer.RunUpToFirstFailure | src/main/java/associations/BiarcAnalyzer.java:51-64 | the loop runs without exception up to the first failing token |
| BiarcAnalyzer.FailsIffSomeTokenFails | src/main/java/associations/BiarcAnalyzer.java:51-64 | the loop throws exactly when one of the tokens fails |
| BiarcAnalyzer.DedupKeepsFirstOccurrenceOrder | src/main/java/associations/BiarcAnalyzer.java:60-63 | de-duplication keeps first occurrences in their order |
| BiarcAnalyzer.EmissionsInTokenOrder | src/main/java/associations/BiarcAnalyzer.java:51-63 | for any two written heads, some prefix of the tokens refers to the earlier one and none of its tokens refers to the later one |
| Services.NamesIdentifyTerminalStates | src/main/java/services/EmrService.java:102-118 | the `switch` on `state.toString()` picks out the same two states as the preceding `equals` tests, so it never decides anything |
| Services.FlowRequest | src/main/java/services/EmrService.java:58-78 | The request holds the name, the log URI, the steps in insertion order and the instance count. Fixed values: `keepJobFlowAliveWhenNoSteps = false`, Hadoop `3.2.1`, release `emr-6.2.0`, zone `us-east-1a`, `m4.large` master and core nodes, and the two default roles |
| Services.EmrClient.RunJobFlow | src/main/java/services/EmrService.java:58-79 | the client records the request and answers with its assigned id |
| Services.EmrClient.DescribeCluster | src/main/java/services/EmrService.java:131-135 | the client answers with the next observed status, or `None` once they are used up |
| Services.SwitchLog | src/main/java/services/EmrService.java:94-101 | the messages of a run of polls are never more than the polls |
| Services.SwitchLogEntries | src/main/java/services/EmrService.java:94-101 | every message reports a switch *from STARTING* to another state, and every polled state other than STARTING is reported |
| Services.SwitchLogPositions | src/main/java/services/EmrService.java:94-101 | poll j adds one message exactly when its state is not STARTING, placed right after the earlier polls' messages, so a repeated state is reported once per poll |
| Services.Switch | src/main/java/services/EmrService.java:97-99 | the message of one poll always reports a switch *from STARTING* to the polled state |
| Services.Printed | src/main/java/services/EmrService.java:94-101 | one poll prints at most one message, and one exactly when the polled state is not STARTING |
| Services.Wait | src/main/java/services/EmrService.java:92-124 | the loop never polls more statuses than were observed |
| Services.WaitStopsOnlyAtTerminal | src/main/java/services/EmrService.java:92-124 | It returns only on a terminal state. It never polls past the first terminal state. It is still polling only once every status has been polled. It returns the id for TERMINATED and null for TERMINATED_WITH_ERRORS |
| Services.WaitAfterPrefix | src/main/java/services/EmrService.java:92-124 | polling a prefix with no terminal state prints that prefix's messages, then goes on as if started after it |
| Services.WaitStopsAtFirstTerminal | src/main/java/services/EmrService.java:102-109 | at the first terminal state k, the loop has polled exactly k+1 statuses and returns the id (TERMINATED) or null (TERMINATED_WITH_ERRORS); the messages are those of the polled statuses |
| Services.WaitWithoutTerminal | src/main/java/services/EmrService.java:92-124 | with no terminal state observed, every status is polled and the loop is still polling |
| Services.RunningTwiceIsReportedTwice | src/main/java/services/EmrService.java:94-101 | because `state` is reset to STARTING on every poll, RUNNING, RUNNING, TERMINATED is reported as three switches from STARTING |
| Services.StartingIsSilent | src/main/java/services/EmrService.java:94-101 | a STARTING status prints nothing and is polled past |
| Services.EmrService.Create | src/main/java/services/EmrService.java:16-27 | a new service has an empty step list and no job-flow id or flow name |
| Services.EmrService.AddStep | src/main/java/services/EmrService.java:37-52 | appends exactly one step at the end, with `TERMINATE_CLUSTER` and the given name, jar, main class and args; earlier steps and the other fields are unchanged |
| Services.EmrService.RunFlow | src/main/java/services/EmrService.java:54-86 | sets `flowName` to the name, submits `FlowRequest` with the current steps, sets `jobFlowId` to the assigned id, then returns what waiting on that id returns |
| Services.EmrService.WaitForCompletion | src/main/java/services/EmrService.java:88-125 | the result, the messages and the statuses consumed are those of `Wait` on the observed statuses, which the lemmas above characterise |
| Services.EmrService.GetClusterStatus | src/main/java/services/EmrService.java:131-136 | one `describeCluster` call: the next observed status |
| Services.EmrService.GetJobState | src/main/java/services/EmrService.java:127-129 | the state of the next observed status |

## Left out

- The stemmer (`helpers.Stemmer`) is not part of this model. Its algorithm is not available, so it and `toLowerCase(Locale.ROOT)` are taken as pure functions given with the mapper (`Stemmer`). The stemmer is handed the lower-cased word and the original word's length in UTF-16 units (`JavaText.Utf16Length`), as the mapper passes them. This assumes the stemmer keeps no state from one word to the next.
- JavaText.ParseInt / JavaText.ParseLong: only ASCII digits are accepted. `Character.digit` also accepts other Unicode decimal digits.
- JavaText.Split: only single-character delimiters that are not regular-expression metacharacters are modelled (tab, space, `/`). That is all the mapper uses.
- JavaText.Utf8: lone surrogate characters cannot occur in Dafny strings, so their replacement by `?` is not modelled.
- HadoopIo: Hadoop's own `WritableUtils`, `Text` and `WritableComparator` are not part of this model. Their byte layout is written out from the Hadoop 3 library's documented behaviour. `Text.compareTo` uses the pure-Java byte comparer, whose result is the byte difference. The native comparer may return another value of the same sign.
- HadoopIo.EncodeVInt / HadoopIo.EncodeInt: only the non-negative lengths that `Text` and `writeString` write are modelled.
- TaggedPairs.TaggedPair.ReadFields does not constrain the `Text` object's contents after a failed text read. Hadoop may leave it partly updated. The text is modelled as a value, so aliasing of the `Text` object is not modelled.
- TaggedPairs.TaggedPair: `@AllArgsConstructor(staticName = "of")` makes the only constructor private and stops `@Data` from generating another. So the class has no no-argument constructor, and Hadoop's reflective instantiation of it would fail before `readFields` runs. The model applies `ReadFields` to an object made with `Of`.
- TaggedPairs.TaggedPair: the `hashCode` that `@Data` generates is not modelled. It uses `Enum.hashCode`, an identity hash that can differ from one JVM to the next, so with more than one reducer Hadoop's hash partitioner need not send equal keys from different tasks to the same reducer.
- HadoopIo.StringEnd / HadoopIo.TextEnd: the stream is taken to be a `DataInputStream`, whose `readInt`, `readFully` and `readByte` read up to the end of the stream before they throw `EOFException`. A `DataInput` that stops earlier would leave bytes unread that the model counts as consumed.
- BiarcAnalyzer: `context.write` is modelled as appending to the returned sequence. Hadoop's serialisation of the written pairs and the unused `lineId` key are left out. The unused local `featureWord = words[i]` cannot fail and is not modelled.
- BiarcAnalyzer: lines are at most `INT_MAX` tokens in the lemmas that need it (`TokenRules` and the lemmas built on it), the bound on a Java array.
- Services.EmrService.WaitForCompletion: the real loop may poll forever. The model polls a finite sequence of observed statuses and reports `StillPolling` when they run out.
- `Thread.sleep(5000)`, its `InterruptedException`, and all `System.out` printing other than the "switched" message are not modelled. The printed format strings are also left out.
- Services.EmrService.WaitForCompletion: the `switch` on `state.toString()` is not written out, because `NamesIdentifyTerminalStates` shows it never decides anything.
- Services.EmrService: the `credentialsProvider` field and the real client construction (`getClient`, region `US_EAST_1`) are replaced by the oracle passed to `Create`. Exceptions thrown by the AWS SDK are not modelled.
- `src/main/java/S3Service.java` (S3 I/O only), the top-level `src/main/java/EmrService.java` (client construction only) and `Associations.main` (argument-count check only) are not part of this model.
