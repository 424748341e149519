# wee-events, verified

A Dafny model of the event log of wee-events-go and of the three stores behind it, with proofs about every
interleaving of writers, every split of a read into pages, and every schedule of retries. `dafny verify
dfyconfig.toml` checks all of it.

An aggregate's log is a sequence of change sets. Loading it yields its events and a revision; publishing with that
revision as expectation is meant to commit only if nothing was published in between (`EventLog.Admits`). The files
follow the repository:

| file | what it models |
|---|---|
| TextOrder, Numerals | byte-wise text order and fixed-width numerals, on which all revisions rest |
| Ulid | ULID text, and the JetStream revision encoder (`internal/revision_encoder.go`) |
| Revisions | the shared revision generator (`we/revision.go`) |
| Aggregates, EventLog | aggregate ids (`we/event.go`) and the abstract log |
| DynamoTable | the table: records in sort-key order, the conditional two-record write, the paged query |
| DynamoProtocol, DynamoRuns, DynamoWitness | the publish protocol as a state machine, its runs, and a run that goes wrong |
| DynamoStore, DynamoRemoval | the DynamoDB store's loops (`stores/ds/event-store.go`) |
| JetStream | the JetStream store (`stores/jetstream/jetstream.go`) |
| EventStoreDb | the EventStoreDB store (`stores/esbs/event-store.go`) |
| Rendering, Counters | the renderer and the counter's reducers |
| Services, CounterCommands | dispatcher, entity service and the counter's command handlers |
| StoreRefinement | the runs and loads of each store as runs and loads of the interface the services use |

## How the stores are modelled

*DynamoDB.* A state holds the table, the shared generators and all publish calls in flight. A step is one action of
one call: begin, take the time, draw one revision, send the conditional write, or meet a backend error. A run is any
sequence of possible steps. The commit history is kept beside the state and read by no step. What each call adds to
the history (exactly once, attempt bounds) holds in every run, and so does mutual exclusion: whatever the clocks show, a
guarded write commits exactly on the log that ends with the revision it expects (`DynamoRuns.WritesExactlyWhen`,
`DynamoRuns.NoLostUpdate`), and of several publishers that expect the same revision at most one commits, unless two
change sets of the log were given that same revision (`DynamoRuns.AtMostOneWinner`; then two may, and a change set is
overwritten: `DynamoWitness.RevisionUsedTwice`). That the initial revision means no events needs only that no draw is
the all-zero ULID (`DynamoRuns.IsNonZeroRun`), for which clocks after 1970 are enough. Only the reading order needs more:
that the table lists the commits in order, and what follows from it for loads, rests on two properties of the steps
(`DynamoProtocol.Honest`): clocks after 1970, and, for a committing write that expects a revision, a drawn revision
above the expected one. The second is not checked by the store, which compares the head record only for equality there.
It is shown to be exact: a committing write keeps the order if and only if it holds
(`DynamoRuns.CommitKeepsOrderExactlyWhenHonest`), and `DynamoWitness.SlowWriterBreaksOrder` is a run in which a second
process with a slower clock breaks the order and locks out later publishers. A clock past the expected revision's
millisecond suffices; in the same millisecond it takes a generator that already stands at the expected entropy
(`DynamoRuns.ClockSufficesExactlyWhen`). The loops of `DynamoStore` take steps of this machine, with arbitrary steps of
others between any two of them; pages may be answered from any earlier state of the table. How the backend cuts pages
is a sequence of answers given beforehand; a read that is not complete when they end is reported as unfinished. Which
attempts of a publish the backend answers with an error is given beforehand, too, and so are the failures that the
services meet (`Services.Outages`).

*JetStream* and *EventStoreDB* are a stream each, to which others append between any two actions of the store.

*Services* run over one journal of all change sets, kept by a store whose admission is a parameter. Each of the three
stores is an instance, for aggregates whose types have no dot: at every moment of a run it has a journal, and each
request with the answer the store gives is one publish of that interface, with admission as the abstract log promises
for DynamoDB (in runs without an all-zero draw), by sequence for JetStream and by event number for EventStoreDB; what it
loads (for DynamoDB, in honest runs) is a load of that journal (`StoreRefinement`). A load takes effect at one moment of
the store: for DynamoDB at some state since the oldest one a page was answered from, for JetStream when the latest
message is captured, for EventStoreDB at the end. DynamoDB asks for no consistent read, so that its reload may miss what
the command wrote; `Services.EntityService.Execute` says what it holds then.

*Findings.* Four places where the code does less than its interfaces promise, each with the exact
condition proved: the missing comparison above; EventStoreDB revisions are written in base 16 and parsed in base 10, so
expecting a loaded revision works for the first nine events only (`EventStoreDb.LoadThenPublish`,
`EventStoreDb.TenEventsLockOut`; the test on negative numbers after the subtraction can never hold on unsigned ones);
a JetStream publish without events makes the loaded revision useless as an expectation until the next publish with
events (`JetStream.LoadThenPublish`, `JetStream.EmptyChangeSetLocksOut`); and an execution whose reload fails returns an
error although its events are written, which its caller cannot tell from a failed first load, after which nothing is: a
retry then counts twice (`CounterCommands.ExecutedOnce`, `CounterCommands.RetryCountsTwice`).

## Model

| member | source | states |
|---|---|---|
| Ulid.UlidOrder | we/revision.go:29-34 | ULID text compares exactly as (millisecond, entropy) does, and no two pairs share a text |
| Ulid.InitialOnlyZero | we/revision.go:13 | only the all-zero ULID is written as the initial revision |
| Ulid.CrockfordExactly | we/revision.go:29-34 | the alphabet is the digits and the upper-case letters without I, L, O and U |
| Ulid.UlidCharacter | we/revision.go:29-34 | each of the 26 characters is the base-32 digit of the 128 bits at its place |
| RevisionEncoder.PutBigEndian | internal/revision_encoder.go:17-19 | the buffer's part holds the value's big-endian bytes, the rest is untouched |
| RevisionEncoder.EncodeRevision | internal/revision_encoder.go:9-27 | fails exactly for times beyond 48 bits, otherwise writes the sixteen packed bytes as text |
| RevisionEncoder.RevisionCharacter | internal/revision_encoder.go:9-27 | each character of a written revision is the base-32 digit of the packed time, sequence and index at its place |
| RevisionEncoder.RevisionOrder | internal/revision_encoder.go:9-27 | revision text compares as (timestamp, sequence, index) triples do, injectively |
| RevisionEncoder.DecodeEncoded | internal/revision_encoder.go:29-38 | decoding returns exactly the encoded sequence |
| RevisionEncoder.EncodeDecoded | internal/revision_encoder.go:29-38 | every upper-case text the parser accepts is the revision of a triple with the decoded sequence |
| Ulid.ParseUlid | internal/revision_encoder.go:29-33 | parsing fails exactly on a wrong length, a first digit above 7 or a character outside the alphabet |
| Ulid.ParsesExactlyWhen | internal/revision_encoder.go:29-33 | what is parsed, character by character: 26 of the alphabet in either case, the first at most 7 |
| Ulid.CaseIgnored | internal/revision_encoder.go:29-33 | lower-case letters are read as their upper-case forms |
| Numerals.TextOrderIsNumericOrder | we/revision.go:29-34 | fixed-width text over any ascending alphabet compares as the numbers do |
| Numerals.TextDigit | we/revision.go:29-34 | each character of a written number is the digit at its place |
| Revisions.RevisionGenerator.NewRevision | we/revision.go:29-34 | one locked draw: the revision returned and the entropy remembered |
| Revisions.DrawsIncrease | we/revision.go:29-34 | two draws give increasing revisions if the clock moved on, or never left the millisecond in between |
| Revisions.DrawsIncreaseExactlyWhen | we/revision.go:29-34 | that condition is exact: whatever the random source answers if and only if it holds |
| Aggregates.DecodeEncodeExactlyWhen | we/event.go:40-59 | decoding an encoded id gives it back if and only if its type has no dot |
| Aggregates.EncodeDecode | we/event.go:48-59 | decoding fails exactly without a dot, and encoding a decoded id gives the text back |
| Aggregates.EncodeInjective | we/event.go:40-42 | ids whose types have no dot share an encoding only if they are equal, so their streams never mix |
| Aggregates.DottedTypesMix | we/event.go:40-42 | every id with a dotted type shares its encoding with a different id |
| Numerals.ReadInSmallerBase | stores/esbs/event-store.go:86-90 | a number written in one base and read in a smaller one is itself for a single small digit, else a smaller positive number or an error |
| EventLog.LoadedRevisionNamesPrefix | stores/ds/event-store.go:292-299 | in an ordered log the loaded revision determines which prefix was loaded |
| EventLog.LoadedAdmits | we/event-store.go:11-14 | publishing with a loaded revision is admissible exactly on the log it was loaded from, if that uses the revision once |
| DynamoTable.HeadIsLast | stores/ds/event-store.go:65-76 | the head record's key sorts after all change-set keys |
| DynamoTable.KeyTexts | stores/ds/event-store.go:65-76 | the sort keys of a change set and of the head record, as text |
| DynamoTable.PutExactly | stores/ds/event-store.go:253-274 | a put keeps the partition sorted, holds the new record, and leaves all other keys alone |
| DynamoTable.WriteAccepts | stores/ds/event-store.go:133-145 | when the conditional write goes through, in terms of the log: exactly the abstract admission for an expectation, a revision above the last otherwise |
| DynamoTable.WriteExtendsLayout | stores/ds/event-store.go:253-274 | the two puts of an ordered change set turn the partition of a log into that of the longer log |
| DynamoTable.CommitKeepsLayoutExactlyWhen | stores/ds/event-store.go:133-145 | a commit keeps sort-key order equal to commit order if and only if it expected nothing, or drew above what it expected |
| DynamoTable.WriteFollowsExactlyWhen | stores/ds/event-store.go:133-145 | when the conditional write goes through, whatever the order of the other records: the head record alone decides |
| DynamoTable.PutsKeepHead | stores/ds/event-store.go:253-274 | the two puts of any change set keep the head record last and let it name that change set |
| DynamoTable.PutsKeepRecords | stores/ds/event-store.go:253-274 | the two puts of a change set with a new revision add its record and replace the head, in whatever order the records are |
| DynamoTable.SelectContinues | stores/ds/event-store.go:94-102 | a query from any earlier state selects exactly the change sets the reader has not seen of that state |
| DynamoTable.PageExtendsPrefix | stores/ds/event-store.go:92-128 | a page of any size from any earlier state extends a read prefix of the log to a longer one; the last page covers its state, and a page with room and no needless continuation key makes progress |
| DynamoTable.PageRevised | stores/ds/event-store.go:105-127 | whatever page such a partition answers with, its events have the initial revision exactly if there are none |
| DynamoProtocol.AccountingStep | stores/ds/event-store.go:226-283 | every step keeps the account of what each call committed and how often it tried |
| DynamoProtocol.HeadedStep | stores/ds/event-store.go:226-275 | every step, honest or not, keeps the head record last and naming the last commit, and expectations met |
| DynamoProtocol.SequencedStep | stores/ds/event-store.go:226-275 | every honest step keeps all partitions in commit order with the head naming the last commit |
| DynamoRuns.RunAccounting | stores/ds/event-store.go:221-290 | the accounting holds in every state of every run |
| DynamoRuns.RunSequenced | stores/ds/event-store.go:221-290 | in every honest run, every partition lists its commits in strictly increasing order, with the head record equal to the last |
| DynamoRuns.LogPasses | stores/ds/event-store.go:226-275 | between two states of a run a log passes through every length between its own |
| DynamoRuns.ExactlyOnce | stores/ds/event-store.go:221-290 | a committed call has exactly one commit, to its partition, with all its events in order; any other call has none |
| DynamoRuns.RecordsAreCommits | stores/ds/event-store.go:253-274 | also without the hypothesis on expecting writers: while the commits of a partition differ in revision, its change-set records are exactly the committed ones in some order, and the head names the last |
| DynamoRuns.AttemptBound | stores/ds/event-store.go:276-283 | writes per call: at most the bound, at most one with an expectation, exactly the bound when it gives up on conflicts |
| DynamoRuns.WriteOutcome | stores/ds/event-store.go:253-289 | what a write comes to, by the last commit of its partition: a commit if it admits the write; else nothing is stored, and a retry while an unguarded call has attempts left, then a revision conflict |
| DynamoRuns.CommittedExactlyWhen | stores/ds/event-store.go:253-283 | a call has committed exactly if one of its writes was admitted by the last commit |
| DynamoRuns.BackendExactlyWhen | stores/ds/event-store.go:276-289 | a call fails in the backend exactly if the backend answered it with an error |
| DynamoRuns.NoRevisionExactlyWhen | stores/ds/event-store.go:185-190 | a call fails for want of a revision exactly if a draw was refused, by the time or by the entropy |
| DynamoRuns.RunHeads | stores/ds/event-store.go:253-274 | in every run, whatever the clocks show, the head record is last and names the last commit, and each commit was made on a log that ends with what it expected |
| DynamoRuns.WritesExactlyWhen | stores/ds/event-store.go:133-145 | in every run, when a conditional write goes through, in terms of the last commit alone |
| DynamoRuns.NoLostUpdate | stores/ds/event-store.go:140-144 | in every run, a commit that expected a revision was made on exactly the log that ends with it, whose loading yields it |
| DynamoRuns.AtMostOneWinner | stores/ds/event-store.go:133-145 | in every run, of all publishers expecting the same revision of one aggregate at most one commits, unless the log uses that revision twice |
| DynamoRuns.HonestAtMostOneWinner | stores/ds/event-store.go:133-145 | in honest runs no revision is used twice, so at most one commits |
| DynamoRuns.LoadThenPublish | stores/ds/event-store.go:38-51 | in every run without an all-zero draw, publishing with a loaded revision commits if and only if the loaded prefix is still the whole log, unless the log uses that revision twice |
| DynamoRuns.HonestLoadThenPublish | stores/ds/event-store.go:38-51 | in honest runs no revision is used twice |
| DynamoRuns.RunRevised | stores/ds/event-store.go:179-219 | in every run without an all-zero draw, all change sets, committed or stored, have events and are not named after the initial revision |
| DynamoRuns.PositiveClocksAreNonZero | we/revision.go:29-34 | clocks that show a time after 1970 never draw the all-zero ULID |
| DynamoRuns.InitialMeansEmpty | stores/ds/event-store.go:292-299 | in every state of such a run, the revision of a prefix of the log is the initial one exactly if it has no events |
| DynamoRuns.LaterClockDrawsAbove | stores/ds/event-store.go:144 | a clock past the expected revision's millisecond meets the hypothesis on expecting writers |
| DynamoRuns.ClockSufficesExactlyWhen | stores/ds/event-store.go:144 | whatever is drawn last lies above the expected revision if and only if the clock is past its millisecond, or shows it with the generator already at or above its entropy |
| DynamoRuns.ClockBehindIsNeverHonest | stores/ds/event-store.go:144 | behind that millisecond no draw lies above it, so a write that commits is not honest |
| DynamoRuns.CommitKeepsOrderExactlyWhenHonest | stores/ds/event-store.go:140-144 | a committing write keeps its partition in order if and only if it meets the hypothesis |
| DynamoRuns.OwnRevisionsIncrease | stores/ds/event-store.go:185-204 | an attempt's own revisions increase strictly if nobody draws from its generator at another millisecond meanwhile |
| DynamoWitness.SlowWriterBreaksOrder | stores/ds/event-store.go:144 | for any two milliseconds a run without the hypothesis whose table reads out of order and refuses the loaded revision |
| DynamoWitness.RevisionUsedTwice | stores/ds/event-store.go:253-274 | a run with positive clocks in which two generators draw the same ULID: two publishers that expect it both commit, and a committed change set is overwritten |
| DynamoWitness.ZeroDrawLooksEmpty | stores/ds/event-store.go:292-299 | a run with an all-zero draw, after which a log with an event is loaded with the initial revision |
| DynamoStore.DynamoEventStore.NewRevision | stores/ds/event-store.go:185-190 | one draw after others may have drawn: it is added to the attempt, or the attempt fails for want of a revision |
| DynamoStore.DynamoEventStore.MakeChangeSet | stores/ds/event-store.go:179-219 | the loop fills the change set the protocol writes, with others drawing in between |
| DynamoStore.DynamoEventStore.WriteChangeSet | stores/ds/event-store.go:253-274 | without a backend error the write commits exactly if the last commit admits it, and else is retried or reported as a conflict |
| DynamoStore.DynamoEventStore.TryOnce | stores/ds/event-store.go:226-275 | one attempt counts as tried exactly if its write was sent; it ends in a backend error only if the backend is broken |
| DynamoStore.DynamoEventStore.Publish | stores/ds/event-store.go:221-290 | returns no failure if and only if exactly one change set with all the events was added; each failure names its cause, a conflict is what remains; bounds its writes |
| DynamoStore.DynamoEventStore.QueryPage | stores/ds/event-store.go:95-127 | one page, from any state since the oldest allowed, extends the prefix read so far |
| DynamoStore.DynamoEventStore.Read | stores/ds/event-store.go:79-131 | a completed read, interleaved with commits, is the log in whole change sets as it was at one moment since the oldest state used; it stays unfinished only while no more pages than the log has change sets had room and no needless continuation key |
| DynamoStore.DynamoEventStore.Load | stores/ds/event-store.go:38-51 | the read with the revision of its last event, which in every run without an all-zero draw is the initial one exactly if there are no events, whatever pages were read |
| DynamoRemoval.DynamoTableClient.Remove | stores/ds/event-store.go:301-377 | removes from the front in key order, counts what it deleted, leaves nothing when completed and other partitions alone; completes under the condition of the termination lemma |
| DynamoRemoval.DynamoTableClient.RemovePages | stores/ds/event-store.go:316-376 | the page loop has the outcome of the removal function for every sequence of answers |
| DynamoRemoval.DynamoTableClient.RemovePage | stores/ds/event-store.go:319-370 | one page: its keys go in one transaction or none does, other partitions stay |
| DynamoRemoval.PageIsFront | stores/ds/event-store.go:319-370 | a page is the front of what is left, and deleting it leaves the rest past the continuation key |
| DynamoRemoval.PageSize | stores/ds/event-store.go:316-330 | a page of a removal holds as many records as there are, up to the backend's limit and to 25 |
| DynamoRemoval.RemovalTakesFront | stores/ds/event-store.go:316-376 | for every sequence of answers the count is what was deleted and the remainder is a suffix in key order |
| DynamoRemoval.RemovalTerminates | stores/ds/event-store.go:316-376 | successful answers complete the removal once more of them than there are records had room and no needless continuation key, whatever empty pages and trailing keys come between |
| DynamoRemoval.RemovingAggregate | stores/ds/event-store.go:301-377 | a completed removal counts the change sets and the head record; an incomplete one still has the head |
| JetStream.JetStreamStore.Publish | stores/jetstream/jetstream.go:69-119 | commits exactly if the expected sequence is the subject's last; a conflict or an expectation that is no ULID adds nothing |
| JetStream.ExpectedErrExactlyWhen | stores/jetstream/jetstream.go:94-106 | an expectation is refused as no revision exactly if it is neither empty nor the text of a ULID |
| JetStream.SubjectText | stores/jetstream/jetstream.go:65-67 | the subject of an aggregate, as text |
| JetStream.JetStreamStore.NextMessage | stores/jetstream/jetstream.go:183-191 | delivers the subject's next message and skips only other subjects |
| JetStream.JetStreamStore.DecodeChangeSet | stores/jetstream/jetstream.go:208-239 | all events in order with their revisions, or an error exactly for an event beyond 48-bit time |
| JetStream.JetStreamStore.Receive | stores/jetstream/jetstream.go:182-198 | one delivery extends the events read by exactly the next message's |
| JetStream.JetStreamStore.Read | stores/jetstream/jetstream.go:160-206 | the loop ends and returns exactly the subject's events as of the captured latest message, whatever is published meanwhile |
| JetStream.JetStreamStore.Load | stores/jetstream/jetstream.go:125-145 | the same with the revision of the last event |
| JetStream.LoadThenPublish | stores/jetstream/jetstream.go:94-106 | publishing with the loaded revision commits if and only if nothing reached that subject since and its last change set is not empty |
| JetStream.EmptyChangeSetLocksOut | stores/jetstream/jetstream.go:94-106 | on every stream, the revision loaded right after a publish without events is refused |
| JetStream.AtMostOneWinner | stores/jetstream/jetstream.go:94-106 | once a change set was accepted with an expected revision, no other one of that subject is |
| JetStream.AcceptsAsPromisedExactlyWhen | stores/jetstream/jetstream.go:94-106 | for which expectations the check agrees with the abstract log: not for the loaded revision after an empty change set, nor for another revision with the last sequence |
| JetStream.OnlySequenceCompared | stores/jetstream/jetstream.go:94-106 | an expected revision is compared by its sequence alone |
| JetStream.LoadedSequence | stores/jetstream/jetstream.go:133-138 | the loaded revision decodes to the sequence of the last message that has events |
| JetStream.LastSequenceLater | stores/jetstream/jetstream.go:147-158 | a subject's last sequence changes exactly when a message reaches that subject |
| JetStream.InitialMeansEmpty | stores/jetstream/jetstream.go:133-138 | the loaded revision is the initial one exactly if there are no events |
| JetStream.SubjectsDiffer | stores/jetstream/jetstream.go:65-67 | aggregates with dot-free types have different subjects |
| JetStream.DecodedIncreasing | stores/jetstream/jetstream.go:219-220 | revisions increase within a change set if and only if it has at most 65536 events |
| JetStream.RevisionsIncreaseExactlyWhen | stores/jetstream/jetstream.go:216-236 | revisions increase over the whole loaded log if and only if server times do not fall and no change set exceeds 65536 events |
| EventStoreDb.RevisionsKeepOrder | stores/esbs/event-store.go:189 | the text form keeps the order of event numbers |
| EventStoreDb.RevisionCharacter | stores/esbs/event-store.go:189 | each of the 26 characters is the lower-case hexadecimal digit of the event number plus one at its place |
| EventStoreDb.InitialOnlyWrapped | stores/esbs/event-store.go:186-189 | only the last 64-bit event number is written as the initial revision |
| EventStoreDb.SixteenWouldRoundTrip | stores/esbs/event-store.go:86-90 | parsed in base 16 every revision but the wrapped one would give its number back |
| EventStoreDb.ExpectedNumberExactlyWhen | stores/esbs/event-store.go:83-96 | the event number is recovered if and only if its revision has one digit below ten; otherwise an error or an earlier number |
| EventStoreDb.ExpectedErrExactlyWhen | stores/esbs/event-store.go:83-96 | an expectation is refused as no position exactly if it is neither empty nor a decimal number of 64 bits |
| EventStoreDb.EventStore.constructor | stores/esbs/event-store.go:18-41 | the page size is positive, the default for other sizes |
| EventStoreDb.EventStore.Publish | stores/esbs/event-store.go:48-112 | appends all events exactly if the parsed expectation is the last event number; errors add nothing |
| EventStoreDb.EventStore.ReadPage | stores/esbs/event-store.go:145-222 | consecutive events from the position on, short only at the end the stream has by then, while others append |
| EventStoreDb.EventStore.Load | stores/esbs/event-store.go:114-143 | every event once, in order, for every page size and schedule of appends: the whole stream as it is at the end of the load |
| EventStoreDb.LoadThenPublish | stores/esbs/event-store.go:82-96 | publishing with the loaded revision commits if and only if nothing was appended and fewer than ten events were loaded |
| EventStoreDb.TenEventsLockOut | stores/esbs/event-store.go:82-96 | every stream of ten events refuses its own loaded revision, which ends in the digit a |
| EventStoreDb.AtMostOneWinner | stores/esbs/event-store.go:82-96 | once events were appended with an expected revision, no other publish is accepted with it |
| EventStoreDb.AcceptsAsPromisedExactlyWhen | stores/esbs/event-store.go:82-96 | for which expectations the check agrees with the abstract log: not for the loaded revision of ten events or more, nor for another text that parses to the number of events |
| Rendering.Render | we/renderer.go:17-45 | the loop is the fold of the reducers, ending at the first refusal |
| Rendering.FoldJoin | we/renderer.go:23-37 | rendering splits over concatenation |
| Rendering.UnmappedIgnored | we/renderer.go:26-29 | events of unmapped types do not influence the result |
| Counters.Counter.Reduce | samples/counter/reducers.go:6-19 | assigning in place is the fold of the one event; a refused payload changes nothing |
| Counters.WrappedExactly | samples/counter/reducers.go:6-14 | arithmetic is that of 64-bit two's complement |
| Counters.CounterValue | samples/counter/reducers.go:6-19 | the last randomized value, or zero, plus increments minus decrements after it, in 64 bits |
| Counters.CounterMovesByTotal | samples/counter/reducers.go:6-14 | without randomize the value moves by the total, wrapped once |
| Counters.RefusedExactlyWhen | we/renderer.go:31-35 | rendering a counter fails if and only if the payload of an event with a reducer cannot be read |
| Counters.InterleavingDoesNotMatter | samples/counter/reducers.go:6-14 | without randomize any permutation of the events gives the same value |
| Services.EventStore.Publish | we/event-store.go:11-14 | with a working backend the request is accepted, as one change set, exactly if the store admits it, and else is a conflict; a failing backend rejects it and adds nothing |
| Services.RunMeans | we/event-store.go:11-14 | what the answers of a sequence of publishes mean: which requests have added their change set, and which were admitted |
| StoreRefinement.DynamoWriteRefines | stores/ds/event-store.go:253-283 | the conditional write is one publish of that interface, accepting exactly what the abstract log promises |
| StoreRefinement.JetStreamPublishRefines | stores/jetstream/jetstream.go:69-119 | a publish is one of that interface, accepting by the place of the last change set |
| StoreRefinement.EventStoreDbPublishRefines | stores/esbs/event-store.go:48-112 | a publish is one of that interface, accepting by the parsed number of the last event |
| StoreRefinement.DynamoLog | stores/ds/event-store.go:79-131 | the log of each aggregate in the journal is the commit log of its partition |
| StoreRefinement.DynamoRunRefines | stores/ds/event-store.go:221-290 | every run without an all-zero draw has a journal at each state: each write is one publish of its call's request with the answer it gets, and no other step changes it |
| StoreRefinement.DynamoLoadRefines | stores/ds/event-store.go:38-51 | what a load returns is a load of the journal, not before the oldest state a page was answered from |
| StoreRefinement.JetStreamLog | stores/jetstream/jetstream.go:147-206 | the events of each aggregate in the journal are those of its subject, and its last sequence the same |
| StoreRefinement.JetStreamPublish | stores/jetstream/jetstream.go:69-119 | the store's own publish gives the answers and the streams that the run speaks of |
| StoreRefinement.JetStreamRunRefines | stores/jetstream/jetstream.go:69-119 | for every sequence of requests, each one with the answer the store gives is one publish by sequence, and the stream is the journal at every moment |
| StoreRefinement.JetStreamLoadRefines | stores/jetstream/jetstream.go:125-145 | what a load returns is a load of any later journal as of the load's start |
| StoreRefinement.EventStoreDbPublish | stores/esbs/event-store.go:48-112 | the store's own publish gives the answers and the streams that the run speaks of |
| StoreRefinement.EventStoreDbRunRefines | stores/esbs/event-store.go:48-112 | for every sequence of requests, each one with the answer the store gives is one publish by event number, and the streams are the journal at every moment |
| StoreRefinement.StoresAcceptUnguarded | we/event-store.go:11-14 | all three stores accept requests without expectation |
| StoreRefinement.LoadedRevisionGuards | we/event-store.go:11-14 | a handler's publish with the loaded entity's revision is accepted only on exactly the log the first load saw, and refused as a conflict only if that has moved on |
| StoreRefinement.EventStoreDbLoadRefines | stores/esbs/event-store.go:114-143 | what a load returns is a load of the journal at its end |
| StoreRefinement.DynamoInitialized | we/entity.go:33-35 | a loaded entity is initialized exactly if its log has events |
| StoreRefinement.JetStreamInitialized | we/entity.go:33-35 | the same over JetStream |
| StoreRefinement.EventStoreDbInitialized | we/entity.go:33-35 | the same over EventStoreDB |
| Services.TrackingPublisher.Publish | we/dispatcher.go:78-86 | the flag says exactly whether events were published |
| Services.TrackingPublisher.Run | we/dispatcher.go:56-71 | running a handler writes exactly its accepted requests, in order; each request was answered by the store's admission at its place of the journal |
| Services.EntityService.Dispatch | we/dispatcher.go:43-71 | an unknown command and a remote one in another encoding than JSON publish nothing, each with its error; any other runs its handler, remote or not; the flag is true exactly if events were written, also when the handler then fails |
| Services.EventStore.Load | we/event-store.go:11-14 | the events of the aggregate as of some moment, not before the start of the load if the store reads consistently; or a failure |
| Services.EntityService.Load | we/entity-loader.go:14-24 | the entity renders the log as of that moment; a failure of the store or of a reducer is passed on |
| Services.WritesAreInLog | we/service.go:34-54 | what an owner wrote to an aggregate stands in its log in order, past the change sets from before |
| Services.EntityService.React | we/service.go:42-53 | dispatch, then the entity of the first load if nothing was written, else whatever the reload yields, failures included |
| Services.EntityService.HoldsWrites | we/service.go:34-54 | the log a load sees holds the writes made by then, in order and past the first load; all of them if the store reads consistently |
| Services.EntityService.Execute | we/service.go:34-54 | what each combination of routing, answers and failing loads comes to; the reload holds the writes to the aggregate made by then, all of them in a store that reads consistently |
| CounterCommands.ExecutedOnce | samples/counter/handlers.go:10-26 | an execution has written its event, exactly once, if and only if it returns an entity or its reload failed; when it reports a failed load |
| CounterCommands.ExecutionPublishes | samples/counter/handlers.go:10-26 | by command name and payload: an execution publishes one event without expecting a revision, incremented or decremented by the amount (zero if missing) or randomized to the randomizer's value; how it ends by the answer of the publish |
| CounterCommands.CommandMeans | samples/counter/handlers.go:10-26 | what a command is taken for, by its name and payload alone |
| CounterCommands.RenderFailsExactlyWhen | we/renderer.go:31-35 | a load of a counter is refused by a reducer exactly if a payload in the log cannot be read |
| CounterCommands.RetryCountsTwice | we/service.go:48-53 | on top of any journal of a store that accepts requests without expectation, an increment whose reload fails and its retry: the first returns an error, the counter moves twice |
| CounterCommands.EveryCommandCountsOnce | samples/counter/handlers.go:10-26 | in any interleaving of any executions the value is that of the last randomize written plus the increments minus decrements written after it, or the sum over all of them; each execution that wrote counts once, any other never |
| CounterCommands.FinishedCountOnce | we/service.go:34-54 | any finished executions of counter services on one journal, in any interleaving, are such a journal: those that returned an entity or whose reload failed count once, the others not at all |
| CounterCommands.SameCommandsSameValue | samples/counter/handlers.go:10-26 | two journals of the same executions without randomize, in any orders and with any revisions, give the same value |
| CounterCommands.CounterIgnoresInterleaving | samples/counter/reducers.go:6-14 | two logs with the same payloads in any orders, and any revisions, give the same value |

## Left out

- The clients of DynamoDB, NATS and EventStoreDB: replaced by an atomic conditional write and ordered paged query, one stream with per-subject expectations, and a numbered stream; a backend error means that nothing was committed.
- The ulid library, which is not part of this model's sources: its text form and monotonic draws follow the ULID specification. `ParseUlid` refuses characters outside the alphabet, where the library's lenient parser would decode them to an unspecified number; no store writes such text. A draw that overflows yields nothing and leaves the generator alone.
- Ulid.ParseUlid: as above, stricter than the lenient parser on characters no store emits.
- JSON marshalling, encodings and metadata: payloads are opaque values that survive the round trip; event ids, correlation ids and textual timestamps are not modelled.
- Context cancellation, ambiguous failures (committed but reported as failed), back-off times, tracing and logging.
- EventStoreDb.EventStore.Publish: the backend refuses appends that would leave 64 bits of event numbers; metadata and stream deletion are not modelled.
- DynamoRemoval.DynamoTableClient.Remove: nobody else writes the partition meanwhile, and pages are answered from the current table; an answer from before an earlier commit could leave that commit behind.
- JetStream message deletion, and subjects with wildcard tokens, in which one id's subject would match those of others.
- Counters.Counter.Reduce: the reducers of `Rendering` are functions from the old state to the new one, because a map cannot hold methods; `Reduce` is the in-place form.
- A handler is a finite tree of publishes and reactions to their answers; one that never returns is not modelled.
- NameOf and kebab-casing: event and command names are distinct constants.
- HTTP, the resource encoder, wiring, deployment and test containers.
