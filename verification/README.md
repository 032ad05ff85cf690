# git-lex: a Dafny model

git-lex turns a git repository of Markdown documents into an RDF graph. On every save and sync it walks
the documents, extracts frontmatter and links into sidecar files (`.fm.spo`, `.md.spo`), and writes
N-Quads; it keeps a cache of that walk, a machine-wide registry of repositories, a pre-commit hook, a
`.gitignore` block, a few lists in `repo.yml`, an identity line in `SOUL.md`, and a one-file export of the
graph. This project models that logic in Dafny and proves what the program promises about it.

`dafny verify dfyconfig.toml` checks the whole project.

## How the model is laid out

- `Text`, `Wrappers`, `Utf8`, `Sorting`: the operations of the Rust standard library the program uses
  (`split`, `lines`, `trim`, `find`, `from_utf8_lossy`, `sort` with `dedup`), with the laws the rest needs.
- `ParallelMap`, `Walk`, `WalkCorrect`, `WalkHistory`, `WalkStale`, `WalkNamespace`, `WalkRight`, `WalkLaws`,
  `DirtySidecars`: the document walk. `ParallelMap` is a state machine of worker steps; `Walk` is the cache, the
  preparation and the processing of one walk; `WalkCorrect` says what one walk does to answer, cache and sidecars;
  `WalkHistory` says it for every history of edits, walks, killed walks and lost files; `WalkStale` says what a walk
  answers from any cache at all; `WalkNamespace` joins the walk to the emission below; `WalkRight` says exactly which
  changes of files and of namespace a cached walk survives; `WalkLaws` says what a walk comes to in terms of the parts
  it is made of; `DirtySidecars` reads git's status and says which
  sidecars a walk puts right.
- `Registry`, `RegistryRows`, `RegistryLaws`: the registry as a protocol of processes that lock, read, edit, rename and
  die, the row-merging fold inside its critical section, and what one update leaves on record.
- `Clock` (modules `Calendar` and `Timestamps`): the calendar and the three timestamp formatters, with i32
  and i64 written out.
- `PercentCoding`, `Paths`, `Links`, `References`, `Resolve`, `ReferenceWriters`, `KitValues`, `Subjects`,
  `NQuads`, `Emission`, `EmissionLaws`, `EmissionSafety`: from an authored value to an emitted statement,
  and a reader of N-Quads written from the grammar to say what the statements mean. `PathLaws`, `LinkLaws`,
  `IdentityLaws` and `EmissionValues` say what comes of paths, links, ids and values as they are written. `Joins` says which references
  reach the Things they name, and `Migration` which facts stay when a kit moves its namespace.
- `Validation`, `ValidationLaws`: the reading of a document that is judged before a save, and where it differs from
  sync's.
- `Heal`, `HealContent`, `HealHistory`: links that follow renamed files.
- `Hooks`, `HookLaws`, `Gitignore`, `RepoYml`, `RepoYmlLaws`, `Frontmatter`, `SoulMd`: the files the program edits in place.
- `Spine`, `IriResolution`, `SpineReading`: the export, reference resolution as section 5.2 of RFC 3986 has it,
  and a reader of the export that has nothing but the file's lines.
- `Ancestors`: the nearest described ancestor and the property listing built on it.

Loops are methods with invariants, proved equal to a specification function; objects that the source
passes around and fills (`Emission.Emitter`, `Spine.SpineWriter`) are classes. The laws are lemmas about
the specification functions. Strings are sequences of Unicode scalar values; where the program works on
bytes, `Utf8` does the conversion.

Parts of the system that are other people's code enter as parameters: what the Markdown parser, the YAML
parser and git answer (`Walk.Pipeline`, `Links.Node`, `KitValues.Yaml`, `HealContent.Piece`, the blob
hashes), what the installed ontologies declare (`Emission.Tables`, `Subjects.Ontology`), and hashing.
Hashes are taken to be injective; a walk's extraction is taken to depend on the document, its path, the
file index, what the cache's context hash covers, and the namespace of the repository, which it does not cover.

## Where the code does not do what its documentation says

Each of these is a lemma about the code as it is, with the exact condition under which the promise holds.

- The name test of the walk cache is documented as sound for every way of writing a link. It is not for
  `%62ob.md` or `.`: `Links.EscapedLetterMissed`, `Links.DotMissed`. It is for destinations that spell the name
  (`WalkCorrect.SpelledLinksSettled`). Of links the walk's theorems ask only that no document the walk
  takes from the cache has one to a file that came or went; exactly then, under one namespace, its extraction is
  the one the cache holds: `WalkCorrect.ExtractionSameIff`. Over a whole walk: `WalkRight.CachedWalkRightIff`.
- A walk killed after it rewrote a fragment and before it wrote the manifest, followed by an edit that
  puts the old text back, makes the next cached walk serve the wrong fragment:
  `WalkStale.KilledWalkThenRevert`; it is wrong exactly when the served fragment is not the extraction's:
  `WalkStale.OneStaleFragmentIff`.
- The context hash is documented to cover everything that can change every document's output. It does not cover
  the namespace that `resource_base_at` takes from `repo.yml`: after a change of `name:` a cached walk serves the
  old addresses (`WalkStale.NamespaceChangeServesOld`). It is right exactly when no served document has a link to a
  file that came or went or, under another namespace than the cache was written under, refers to another by path:
  `WalkRight.CachedWalkRightIff`.
- A document whose sidecar git calls changed is documented to be taken through the whole pipeline, so that its
  sidecars are written again. Git quotes and escapes names, and the reader of its status takes only the quotes off:
  a name with a quote, a backslash or a letter outside ASCII in it, or with ` -> `, is read as another name.
  `DirtySidecars.SourceFoundIff`; of a document the cache would serve, the sidecars then stay wrong:
  `DirtySidecars.DirtyRewrittenIff`.
- `registry_remove` does not always remove: a row recorded under another name of the same directory comes
  back under the removed name: `Registry.RemoveRemovesIff`. An unreadable legacy list is deleted without
  having been folded in: `Registry.UnreadableLegacyIsDeleted`.
- Validation is documented to judge what sync will emit. It accepts an address with `[[` inside it
  (`EmissionSafety.InnerWikilink`); it takes a reference declared without a domain, and a reference of a second
  class in one document, for text (`Validation.BobAccepted`). On each line the two verdicts are
  `Validation.LineMatchesValidation`. They agree for every value free of `[[` and `]]` exactly when the
  declarations put the key in one lane: `Validation.JudgedAlikeIff`, `Validation.OwnClassJudgedAlikeIff`,
  `Validation.SecondClassJudgedAlikeIff`. On any key that validation lets anything through it lets some text with
  `[[` through, `see [[x]]` on a literal key, and sync refuses it (`Validation.WikilinkAccepted`), so over all values
  they agree exactly where both refuse every value: `Validation.JudgedAlikeAlwaysIff`. A blank list item satisfies
  a required property although it carries nothing: `KitValues.BlankCarriesNothing`. Of a value with a line break in it,
  which sync puts on one line, validation writes Turtle that no reader takes: `ValidationLaws.LiteralReadsBackIff`.
- A reference to a document's Thing is documented to be the id the document gives itself. An id with a comma in it
  is not one reference (`Joins.CommaSplitsIds`), and sync refuses every line with `[[` or `]]` in its value before it
  reads references (`Joins.BracketsRefused`). Exactly the ids that are one value and have neither can be referred
  to: `Joins.IdReferenceJoins`, `Joins.RangeReferenceJoins`, `References.OneValueIff`.
- The class and namespace of an authored id, and the property segment of an undeclared key, reach an IRI
  unencoded: `EmissionSafety.TypingReadsIff`, `EmissionSafety.UndeclaredKeyReadsIff`. The path encoder lets
  control characters through: `PercentCoding.EncodedPathSafe`. The decoder takes `%+h` for an escape
  (`PercentCoding.PlusSignAccepted`), and decodes as RFC 3986 does exactly where there is none:
  `PercentCoding.DecodesStrictlyIff`.
- The comment at `civil_from_days` says it is valid for every day an i64 holds; it overflows for the last
  719468 of them and no others: `Timestamps.StepsFitIff`. Adding the zone overflows exactly where
  `Timestamps.OverflowsIff` says, and a local time that does not overflow names a day that does not either:
  `Timestamps.LocalDayFits`.
- Link healing re-encodes only spaces, so a file moved to a name with `#` or with an escape in it is linked
  to the wrong place: `Heal.HealedResolvesIff`. When two files swap names a second healing undoes the first:
  `HealHistory.SwapHealsBack`.
- A hook with its end marker before its start marker passes the damage check and loses everything after
  the start marker: `Hooks.ReversedMarkersLoseTail`; nothing is lost exactly when the start marker comes first or
  last: `Hooks.NothingLostIff`. Installing strips one carriage return a line each time:
  `Hooks.InstallFixpointIff`.
- A `.gitignore` with a stray end marker grows on every run, and one with a stray begin marker loses text
  on the second: `Gitignore.ReversedGrows`, `Gitignore.LoneBeginLosesText`, `Gitignore.EnsureTwiceIff`.
- Removing a list item that is not there is documented as a no-op, and can still drop blank lines under the key,
  the key itself (`RepoYml.AbsentItemRemoved`), or the whole list when it is in flow style, `optional_kits: [a, b]`
  (`RepoYml.FlowListRemoved`). In any file it changes nothing exactly when right under each line of the key stands
  an item and no item under one is the one removed: `RepoYml.RemovalIdleIff`, on the file's text
  `RepoYml.RemovedFileSameIff`.
- The remover takes single quotes off an item and the repository's own reader does not, so removing `x` takes away the
  item that is read as `'x'`: `RepoYmlLaws.SingleQuotedRemoved`.
- Appending is documented to keep the items there are. Of a list in flow style the repository's own reader reads
  nothing, and after an append the new item alone: `RepoYml.FlowListReplaced`.
- `healed_content` says a block is spliced byte for byte; when the identity line is replaced, a `\r` at the end of
  any other line is lost: `SoulMd.ReturnLost`. The block is exact when no other line has one, and only then:
  `SoulMd.OnlyTheBytesIff`.
- The spine's header is documented to declare what the file uses. A quad about a triple term gets no row, and its
  subject and predicate are declared all the same: `SpineReading.TripleDeclares`, `SpineReading.DeclaredExactly`,
  `SpineReading.HeaderNeededIff`. An IRI such as `https://repolex.ai/urn:x` does not read back
  (`SpineReading.AbsoluteUnderBase`); the file says exactly the store's named facts when each is plain, and only
  then: `SpineReading.FileReadsBackIff`.
- The comment at the ancestor search says "first in IRI order". It is the order of discovery
  (`Ancestors.NearestIsFirstFound`), which two steps up can differ (`Ancestors.FirstFoundNotFirstNamed`); the
  comment holds for a class exactly when at each distance classes are found in the order of their names:
  `Ancestors.FirstNamedIff`. On a cycle a class can be its own parent (`Ancestors.OwnParent`), and only there:
  `Ancestors.NoOwnParentIff`.

## Model

| member | source | states |
|---|---|---|
| `ParallelMap.EveryScheduleEnds` | src/nquad.rs:1203-1233 | for every number of threads and every interleaving of claim, compute and store, a run has at most three moves an item and one a worker, and has that many exactly when all workers are done |
| `ParallelMap.NeverStuck` | src/nquad.rs:1203-1233 | until every worker is done, some worker can move |
| `ParallelMap.SlotWrittenOnce` | src/nquad.rs:1211-1226 | over every schedule of any number of workers a slot is written at most once, exactly when it is filled at the end, and exactly once when all workers are done |
| `ParallelMap.FinishedIsMap` | src/nquad.rs:1228-1232 | when the workers are done every slot holds its own item's result, so the `expect` cannot fire and the answer is the in-order map |
| `ParallelMap.Map` | src/nquad.rs:1203-1233 | shared counter and result vector, any worker that can move moves: the result is the sequential map |
| `Walk.GenerateFrontmatterNquads` | src/nquad.rs:834-1128 | the chunked walk, prepared on any number of threads, gives the answer and the disk of the documents taken one at a time |
| `Walk.ProcessChunk` | src/nquad.rs:873-1105 | the prepared documents of a chunk are processed in file order |
| `Links.LineMovesIff` | src/extraction.rs:163-205 | a link has the same line under two file lists exactly when the file it names did not come or go (for a document whose path does not begin like a key) |
| `Links.LinesMoveIff` | src/extraction.rs:156-224 | a document has the same link lines under two file lists exactly when no file any of its links names came or went |
| `WalkCorrect.ExtractionSameIff` | src/walkcache.rs:126-187 | a document extracted under another file list and namespace gives the extraction it gives now exactly when no link of it names a file that came or went and its lines emit the same under both namespaces |
| `WalkCorrect.SpelledLinksSettled` | src/walkcache.rs:172-209 | in a document the walk takes from the cache, no link that spells its target's name names a file that came or went |
| `WalkCorrect.WalkIsAnswer` | src/nquad.rs:746-1128 | a walk, cached or forced, with or without sidecars, whose served documents are settled and not tampered with answers what a plain full walk of the tree answers, leaves a trustworthy cache, and with sidecars leaves every document's two sidecars equal to its extraction, absent exactly when empty |
| `WalkCorrect.SaveSound` | src/walkcache.rs:377-438 | saving keeps only proven rows and their fragments, and the saved list and manifest are a cache a later walk may load |
| `WalkHistory.CachedWalksAreFullWalks` | src/nquad.rs:811-1128 | over every history of edits, context and namespace changes, tampering, lost files, completed walks and killed walks, every completed cached walk returns the N-Quads and the error count of a forced full walk, as long as each document a walk takes from the cache is settled and no suspect |
| `WalkHistory.FromScratch` | src/walkcache.rs:220-240 | so it is for a repository that was never walked |
| `WalkHistory.KilledWalkSound` | src/walkcache.rs:344-404 | wherever a walk is killed, only documents whose fragment it had already rewritten become suspect |
| `WalkHistory.FullWalkFromAnyDisk` | src/nquad.rs:779-811 | a forced full walk needs nothing of the disk it starts from |
| `WalkStale.WalkGives` | src/nquad.rs:873-1105 | whatever the cache holds, a walk answers the stored fragments and counts of the documents it serves and the extractions of the rest, in order |
| `WalkStale.OneStaleFragmentIff` | src/walkcache.rs:320-342 | one document whose fragment something else touched makes the N-Quads wrong exactly when it is served and the fragment is not its extraction's |
| `WalkStale.KilledWalkThenRevert` | src/nquad.rs:1091-1100 | for any two distinct texts, a killed walk and a revert make the next cached walk serve the fragment of the text that is not there |
| `WalkStale.NamespaceChangeServesOld` | src/walkcache.rs:126-146 | for any two distinct namespaces, a walk, a change of namespace and a cached walk give the old fragment where a full walk gives the new one |
| `WalkNamespace.SameEmissionIff` | src/git.rs:188-262 | a document's N-Quads and errors are the same under two namespaces exactly when none of its lines is a reference by repository path |
| `WalkRight.CachedWalkRightIff` | src/walkcache.rs:126-209 | after any change of files and of namespace, the N-Quads, errors and counts of a cached walk are a full walk's exactly when no document it serves has a link to a file that came or went or, under another namespace than the cache was written under, a reference by path |
| `WalkRight.PairedEmission` | src/nquad.rs:1334-1467 | two extractions of one document that have no error are one text, or part at some character: exactly when a link moved or the namespace shows |
| `WalkLaws.WalkComesTo` | src/nquad.rs:834-1128 | a walk that may be trusted answers each document's emitted text in order, and as errors the sum of one for an unreadable document, the YAML errors, one for Markdown that could not be parsed, and the emitter's |
| `WalkLaws.FullWalkRows` | src/nquad.rs:1083-1105 | a full walk leaves a row and a fragment for exactly the documents without any of these errors, with what was found of them |
| `WalkLaws.ErrorsStayLoud` | src/nquad.rs:954-966 | no trusted walk leaves a row or a fragment for a document with an error, so every later walk reports it again |
| `WalkLaws.SidecarsHold` | src/nquad.rs:970-1013 | written sidecars hold exactly the sorted frontmatter lines and link lines, and are not there when there are none |
| `WalkLaws.ServedIff` | src/nquad.rs:873-953 | a document is served from the cache exactly when the walk is not forced past it, its bytes and its hash in the index are the cached ones, it mentions no name that came or went, and all that is asked for is there |
| `WalkLaws.OwnDocumentIff` | src/nquad.rs:296-301 | links are read from and lead to the files named `.md` whose name does not begin with `__` |
| `DirtySidecars.DirtySidecarSources` | src/nquad.rs:1240-1262 | the two loops over git's status give the specified set of sources |
| `DirtySidecars.SourceFoundIff` | src/nquad.rs:1247-1259 | the row of a sidecar, renamed or not, gives its source exactly when git writes the source's name without an escape and it holds no ` -> ` |
| `DirtySidecars.WalkSidecars` | src/nquad.rs:873-1105 | whatever the cache and the disk hold, a walk that writes sidecars leaves those of every document it does not serve equal to the extraction, and those of the others as they were |
| `DirtySidecars.DirtySidecarRewritten` | src/nquad.rs:825-859 | a document whose sidecar git lists by a plain name has both sidecars equal to its extraction after the walk that read the list |
| `DirtySidecars.DirtyRewrittenIff` | src/nquad.rs:1235-1239 | of a document the cache would serve, wrong sidecars that git lists are put right exactly when the name is plain |
| `Links.SpelledReferenceContainsNeedle` | src/walkcache.rs:172-209 | a destination that spells its target's name contains the target's needle |
| `Links.EscapedLetterMissed` | src/walkcache.rs:172-187 | for every plain name, writing its first letter as an escape resolves to the file and contains no needle |
| `Links.DotMissed` | src/walkcache.rs:172-187 | a destination `.` resolves to the directory's name with `.md` and contains no needle |
| `LinkLaws.LinkSays` | src/extraction.rs:163-205 | a link has no line exactly when its destination is empty or a fragment; an `http` or `https` one is an outside link, any other leads to a document of the repository or is noted as unresolved, in the author's words |
| `LinkLaws.AutolinkSays` | src/extraction.rs:202-211 | a URL in angle brackets is an outside link |
| `LinkLaws.LinesJoin` | src/extraction.rs:163-224 | the lines of a document are its links' lines, in document order |
| `LinkLaws.StemIs` | src/walkcache.rs:177-182 | the name test drops the last dot of the file name and what follows it, when something stands before it |
| `LinkLaws.StemWhole` | src/walkcache.rs:177-182 | and keeps a file name without a dot whole |
| `LinkLaws.NeedleIsLongest` | src/walkcache.rs:183-187 | the needle is the longest run of URL-safe characters of that name, the last of several; there is none exactly when it has no such character |
| `Registry.Serialised` | src/lib.rs:846-900 | for any number of processes, interleavings and deaths, the registry file is the renamed edits applied one after another in lock order, and a reader only ever sees one of those complete documents |
| `Registry.NoPathLost` | src/lib.rs:846-900 | a path on record in the registry or the legacy list stays on record through any interleaving and any death, until a removal of it is applied |
| `Registry.UpdatedPaths` | src/lib.rs:858-891 | one update's paths are the old ones and the legacy ones with the edit's added or removed, each resolved; foreign fields of the document stay |
| `Registry.RemoveRemovesIff` | src/lib.rs:994-1011 | a removal takes the path away exactly when no row and no legacy line records the directory under another name |
| `Registry.UnreadableLegacyIsDeleted` | src/lib.rs:868-897 | an unreadable legacy list adds no path and is deleted after the rename |
| `RegistryLaws.PutStamps` | src/lib.rs:904-921 | after a put the one row of the directory has the latest of the clock's reading and the times of the rows that resolve there, or the old time without a clock, and the genesis that was given; the rows of other directories keep their fields, and the rows are in the order of their paths |
| `Sorting.LessIff` | src/lib.rs:887 | a path comes before another exactly when it is a beginning of it, or has the smaller character where they first differ |
| `RegistryLaws.RenameRecords` | src/lib.rs:889-893 | and so it stands in the file that any process renames into place, in every reachable state |
| `RegistryLaws.RemovalKeeps` | src/lib.rs:994-1011 | a removal keeps every row of another directory as it was |
| `RegistryLaws.LegacyJoins` | src/lib.rs:865-881 | the registry's rows stay as they are, and every path of the legacy list that none of them has joins them once, without a time |
| `RegistryLaws.RestOfDocumentStays` | src/lib.rs:858-888 | an update keeps the rest of the document, and takes a `repos` that is no list for the empty one |
| `RegistryLaws.LockComesFree` | src/lib.rs:850-857 | over every run the lock is held exactly by the process that is inside, so when nobody is, every waiting process may take it |
| `RegistryLaws.UpdateCompletes` | src/lib.rs:846-900 | a process that has the lock and lives to the end leaves its update on record as the next one, no legacy list and a free lock |
| `RegistryRows.FoldSameDirectory` | src/lib.rs:798-831 | the draining loop with its index map gives the specified fold, for every list of rows |
| `RegistryRows.FoldKeeps` | src/lib.rs:790-831 | one row a resolved path, exactly the paths that came in; it has the greatest `last_used` and every field of a row used then, a genesis when any had one, and every field any merged row had |
| `RegistryRows.FoldIdempotent` | src/lib.rs:798-831 | folding again changes nothing when resolving is idempotent on the paths at hand |
| `Calendar.CivilFromDaysIsDate` | src/clock.rs:51-64 | every integer is a day of a real proleptic Gregorian date, and the inverse gives the integer back |
| `Calendar.DaysFromCivilInverse` | src/clock.rs:53-64 | every real date is named by exactly one integer |
| `Calendar.CivilFromDaysSuccessor` | src/clock.rs:53-64 | consecutive integers are consecutive dates |
| `Timestamps.FormattedReadsBack` | src/clock.rs:35-49 | the text has the shape of section 5.6 of RFC 3339 exactly for the years 0 to 9999 and offsets under 100 hours, and then reading it gives the instant and the offset |
| `Timestamps.TodayIsDatePart` | src/clock.rs:21-25 | the date text is the part of the timestamp before its `T` |
| `Timestamps.GitDateTimeAgrees` | src/git2_nquads.rs:70-95 | the git formatter writes the same text exactly for the offsets other than i32::MIN |
| `Timestamps.KitDateAgrees` | src/kit.rs:987-1012 | the truncated-division form of the era computes the same date for every day |
| `Timestamps.StepsFitIff` | src/clock.rs:51-64 | every value the date algorithm computes stays in an i64 exactly for the days at least 719468 below the end of the range |
| `Timestamps.LocalDayFits` | src/clock.rs:37-40 | a local time inside an i64 names a day for which none of them overflows |
| `Timestamps.OverflowsIff` | src/clock.rs:37-38 | adding the zone overflows exactly for the instants within the zone's seconds of the end it goes towards |
| `PercentCoding.PercentDecode` | src/extraction.rs:68-86 | the byte loop is the escape-by-escape decoding |
| `PercentCoding.UriEncodePath` | src/nquad.rs:137-143 | the loop encodes character by character |
| `PercentCoding.UriEncodeUrl` | src/nquad.rs:151-169 | the loop keeps existing escapes and encodes the rest |
| `PercentCoding.DecodeEncode` | src/nquad.rs:111-143 | decoding an encoded path gives the path, for every Unicode string |
| `PercentCoding.FileIriInjective` | src/git.rs:228-230 | distinct paths never share a File IRI |
| `PercentCoding.EncodedPathSafe` | src/nquad.rs:111-134 | an encoded path may stand in an IRI exactly when the path holds no control character |
| `PercentCoding.EncodedUrlIsEncoded` | src/nquad.rs:145-169 | every `%` of an encoded URL opens a two-hex-digit escape |
| `PercentCoding.EncodedUrlFixpoint` | src/nquad.rs:145-169 | the URLs left alone are exactly the encoded ones |
| `PercentCoding.EncodedUrlIdempotent` | src/nquad.rs:145-169 | encoding twice is encoding once |
| `PercentCoding.EncodedUrlMeansTheSame` | src/nquad.rs:145-169 | the encoded URL decodes to what the author's URL decodes to exactly when that holds no signed escape |
| `PercentCoding.DecodesStrictlyIff` | src/extraction.rs:68-86 | the decoder decodes as section 2.1 of RFC 3986 has it exactly the texts that hold no signed escape |
| `PercentCoding.PlusSignAccepted` | src/extraction.rs:74-78 | `%+h`, for any hex digit and before any text, is decoded as one byte, where strict decoding leaves three |
| `PercentCoding.EncodedPathSame` | src/nquad.rs:111-134 | an encoded path is the path as it was exactly when every character of it is ASCII and none of the thirteen that are escaped |
| `PercentCoding.EncodedTable` | src/nquad.rs:111-134 | the thirteen escapes, written out |
| `PercentCoding.EncodedPathConcat` | src/nquad.rs:137-143 | encoding commutes with concatenation |
| `PercentCoding.EncodedSegments` | src/nquad.rs:137-143 | the segments of an encoded path are the encoded segments of the path: no slash is made or lost |
| `PercentCoding.EncodedPathUpper` | src/nquad.rs:127-131 | every `%` of an encoded path opens an escape with upper-case digits |
| `PercentCoding.EncodedUrlAtSlash` | src/nquad.rs:151-169 | a URL is encoded piece by piece between its slashes |
| `PercentCoding.EncodedUrlKeepsScheme` | src/nquad.rs:151-169 | an encoded URL keeps its `http://` or `https://` |
| `Utf8.CompleteIsEncoded` | src/extraction.rs:68-86 | decoded bytes become a character only when they are its one encoding: no overlong form, no surrogate, nothing past the last code point |
| `Utf8.BrokenIsLongest` | src/extraction.rs:68-86 | any other bytes become replacement characters, one for the longest beginning of an encoding that stands there |
| `Paths.NormalizeWikilinkPath` | src/extraction.rs:34-62 | the segment stack computes the specified path, or refuses |
| `Paths.NormalizedIsNormal` | src/extraction.rs:34-62 | whatever is answered has proper segments and an extension |
| `Paths.NormalizedRooted` | src/extraction.rs:34-62 | a path written from the root resolves to itself from every directory exactly when it is normal |
| `PathLaws.UpDown` | src/extraction.rs:34-62 | a name and `..` right after it, anywhere in a target, change nothing of what the target resolves to |
| `PathLaws.UpDownFirst` | src/extraction.rs:34-62 | likewise at the beginning of a target |
| `PathLaws.SlashesAndDots` | src/extraction.rs:34-62 | an empty segment or `.` anywhere in a target changes nothing |
| `PathLaws.UpFromBelow` | src/extraction.rs:34-62 | `../x` from a directory `d/e` resolves as `x` from `d` |
| `PathLaws.NamesResolve` | src/extraction.rs:34-62 | a target of names resolves to the directory, the names and the extension when it has none |
| `PathLaws.NamesNothingIff` | src/extraction.rs:34-62 | a target names no file exactly when some beginning of its segments has more `..` than names, or all of them come to the root |
| `PathLaws.DirOfDocument` | src/extraction.rs:156-166 | links of a document resolve from the directory the document is in |
| `PathLaws.DestinationParts` | src/extraction.rs:163-205 | a destination is its path and, from the first `#` on, its fragment |
| `References.SplitObjectValues` | src/nquad.rs:180-206 | the two splitting loops compute the specified list of values |
| `References.ObjectValuesTrimmed` | src/nquad.rs:180-206 | no value is blank and none keeps white space at its ends |
| `References.UrlListKeepsText` | src/nquad.rs:188-205 | grouping the pieces of a URL list loses nothing |
| `References.UrlListHoldsUrls` | src/nquad.rs:188-205 | in a URL list every value is a URL: a comma inside a URL separates nothing |
| `References.OneValueIff` | src/nquad.rs:180-206 | a trimmed text is one value exactly when it holds no comma or, being a URL, no comma that another URL follows |
| `References.CommaInUrl` | src/nquad.rs:181-204 | a comma in a URL parts two values exactly when another URL follows it |
| `Resolve.ThingLaneAgrees` | src/resolve.rs:84-238 | the lane for Things accepts a value exactly when the general resolver reads it as a bracketed identifier, and then both give one IRI, whatever repository writes it |
| `Resolve.ThingReferenceInjective` | src/resolve.rs:201-238 | two identifiers share an address only when they are the same |
| `Resolve.RangeInjective` | src/nquad.rs:381-424 | under one range two ids share an address only when they are the same |
| `Resolve.FrontmatterValueSafe` | src/resolve.rs:84-181 | every IRI minted from a control-free value may stand in a statement |
| `ReferenceWriters.EmitReferenceValues` | src/nquad.rs:1632-1768 | the value loop writes the specified lines and counts the specified errors |
| `ReferenceWriters.WriteReferences` | src/extraction.rs:427-489 | validation's value loop writes the specified Turtle or stops at the first refused value |
| `ReferenceWriters.WritersAgree` | src/extraction.rs:628-691 | for every value and range, validation accepts exactly when sync reports no error, and then both write the same sequence of targets |
| `ReferenceWriters.NeverUnresolved` | src/resolve.rs:150-181 | after the splitter the literal lane is never taken |
| `KitValues.FlattenYaml` | src/extraction.rs:108-140 | the recursive appender writes the specified lines |
| `KitValues.PushKitValue` | src/extraction.rs:545-624 | the collector accepts the specified values and refuses the rest |
| `KitValues.OneLineIsOneLine` | src/extraction.rs:94-103 | a rendered value is one line, and rendering a line changes nothing |
| `KitValues.LineReadsBack` | src/nquad.rs:1344-1350 | a sidecar line gives back its key and value exactly when the key is free of the separator |
| `KitValues.ReadingsAgree` | src/extraction.rs:545-624 | whenever validation accepts a value, the values it judges are, rendered, the objects sync reads back, in order |
| `KitValues.BlankCarriesNothing` | src/extraction.rs:545-624 | a blank value is no pair, except as a list item |
| `KitValues.ReachedHasLines` | src/extraction.rs:130-137 | a scalar or list reached through mappings by a path of keys gives its lines under the keys joined by dots |
| `KitValues.LinesAreReached` | src/extraction.rs:108-140 | and no other lines are written |
| `KitValues.OneLineJoins` | src/extraction.rs:94-103 | a text with a break in it is rendered as the trimmed text before the break and the rendering of what follows, with one space between them when neither is empty |
| `KitValues.ScalarTexts` | src/extraction.rs:113-129 | how truth values and numbers are written, alone and in lists, with and without a tag |
| `Joins.IdReferenceJoins` | src/nquad.rs:1334-1768 | a line whose value is a document's id, with no class range or the range of all Things, is one statement about exactly that document's Thing and no error exactly when the id holds no comma, no `[[` and no `]]` |
| `Joins.RangeReferenceJoins` | src/nquad.rs:381-424 | a line whose value is a bare id, on a property with the class for its range, is one statement about exactly the Thing it names exactly when the id is one value and holds no `[[` and no `]]`; it is an error exactly when it holds one |
| `Joins.CommaSplitsIds` | src/nquad.rs:180-206 | `<s/N/a,b>` is an address in full and two values as a reference, one of them refused; `a,b` is two ids |
| `Joins.BracketsRefused` | src/nquad.rs:1352-1376 | `<s/N/a[[b>` and `a[[b` are ids that the value loop would take, and their lines are errors under every key |
| `Subjects.ThingFollowsId` | src/nquad.rs:443-622 | the Thing does not depend on where its file is; the File node does, injectively |
| `Subjects.DerivedSafe` | src/nquad.rs:443-622 | both anchors of control-free lines are safe when the class is |
| `IdentityLaws.IdDecides` | src/nquad.rs:443-531 | a document whose first filled-in `id` line, of the class of its first classed line, holds `<ns/Class/x>` is the Thing x of class Class in ns, whatever else it says |
| `IdentityLaws.ConventionDecides` | src/nquad.rs:533-622 | without an id that can be read, the first filled-in line under the class's declared id property gives the id of a Thing of that class |
| `IdentityLaws.NoThing` | src/nquad.rs:443-622 | and a document without a classed line, a declared id property or a value for it is no Thing |
| `IdentityLaws.UniversalIdIff` | src/nquad.rs:631-660 | an id is read as namespace, class and identifier exactly when none is empty, it is no URL, and the identifier does not begin with a slash |
| `IdentityLaws.IdKeyIff` | src/nquad.rs:2621-2628 | a key names the id property exactly when kit and property are the ones asked for and the class is, in any case |
| `IdentityLaws.ConventionalIdPropIs` | src/nquad.rs:533-543 | the id property is the class's name with a small first letter, and `Id` |
| `IdentityLaws.LanesMeet` | src/nquad.rs:381-424 | `<kit/Class/id>` and the bare id under the class's range are one address exactly when kit and class need no escape |
| `IdentityLaws.AppBaseDropsTier` | src/nquad.rs:419-424 | a kit's application is its namespace without the first `ontology` level |
| `IdentityLaws.AppBaseStays` | src/nquad.rs:419-424 | and any other namespace as it is |
| `IdentityLaws.RangeDecides` | src/nquad.rs:1626-1700 | under the range of all Things a value has to be a bracketed identifier, under any other it is an id of that class |
| `IdentityLaws.UrlLeadsToItself` | src/resolve.rs:118-152 | a URL, bare or in angle brackets, leads to itself, with the characters escaped that need it |
| `IdentityLaws.FolderIsNamespace` | src/git.rs:188-263 | a path under the folder named after the namespace leads to the same place without the folder, and any other path leads below the namespace as it is |
| `NQuads.NqEscapeIsOnePass` | src/nquad.rs:75-80 | the four chained replaces are one pass |
| `NQuads.ReadEscaped` | src/nquad.rs:75-80 | an escaped literal reads back as its text, for every text |
| `NQuads.ReadRendered` | src/nquad.rs:1600-1625 | a statement with safe IRIs is well formed and says its quad |
| `NQuads.ReadsBackIffSafe` | src/nquad.rs:1600-1625 | a statement says its quad exactly when every IRI in it is safe |
| `NQuads.ReadsBack` | src/nquad.rs:1068-1085 | a text of safe statements reads back as exactly those quads, in order |
| `Emission.Emitter.EmitFileAnchor` | src/nquad.rs:669-697 | the anchors and the fileId edge are pushed, the Thing's type once |
| `Emission.Emitter.EmitLinksTo` | src/nquad.rs:1412-1467 | one File to File edge for a target inside the repository, an error for any other |
| `Emission.Emitter.EmitKitLine` | src/nquad.rs:1473-1626 | the class's type once, then the values as references or as one literal on the declared predicate |
| `Emission.Emitter.EmitFm` | src/nquad.rs:1945-1979 | the open lane: one literal, or one statement a value of a link key |
| `Emission.Emitter.EmitLine` | src/nquad.rs:1334-1408 | the dispatch of one sidecar line, with the error count |
| `Emission.Emitter.EmitDocument` | src/nquad.rs:1068-1085 | a document's whole output: typed classes, text and errors |
| `EmissionLaws.TypesOnce` | src/nquad.rs:1518-1528 | over a document's anchor and all its lines, the type of a (kit, class) is stated at most once |
| `EmissionLaws.FactsAreTyped` | src/nquad.rs:1507-1528 | the subject a kit line's facts land on is stated to be of that line's class, and the facts are in the document |
| `EmissionLaws.OwnDeclarationsGovern` | src/nquad.rs:1530-1537 | a document's statements are decided by the declarations of the kits, classes and properties its own lines name and the ranges of those that are references: tables that agree on those give the same statements |
| `EmissionLaws.SharedPredicateIff` | src/nquad.rs:1554-1581 | two undeclared properties of a kit stand on one predicate exactly when they have one name, whatever their classes |
| `Migration.AnchorStaysIff` | src/nquad.rs:443-661 | when a kit moves its namespace the Thing of a document keeps its address exactly when it is not minted in the kit's application by convention, or the application stays |
| `Migration.KitLineStaysIff` | src/nquad.rs:1473-1626 | a kit line then states the facts it stated exactly when its predicate, its subject and its targets stay, or when it states none before and after |
| `Migration.TargetsDiffer` | src/nquad.rs:381-424 | under two ranges that mint different addresses the values of a line name the same targets only when they name none |
| `Migration.MigrationKeepsFactsIff` | src/ontology.rs:121-139 | with every declared IRI and range under the old namespace moved along, each line of a document states the facts it stated exactly when it has none or its declared predicate lies outside the old namespace, an undeclared one is another kit's, its anchor and its range's class are not of the kit, or are where they were; then so does the document |
| `EmissionLaws.StatementsAccounted` | src/nquad.rs:1068-1085 | as multisets, a document's statements are its anchors, each line's facts and one type a class |
| `EmissionValues.LiteralReachesReader` | src/nquad.rs:1600-1624 | a reader of a document's text finds the statement of each literal line: its declared subject and predicate, the authored text, and the declared datatype or none |
| `EmissionValues.LiteralLine` | src/nquad.rs:1600-1624 | such a line states its value once and nothing else |
| `EmissionValues.ValuesTellApart` | src/nquad.rs:1600-1624 | lines of a literal property that differ in their value state different things |
| `EmissionValues.TypedAs` | src/nquad.rs:1473-1560 | the class of every kit line is stated of the node its facts are about |
| `EmissionValues.MeantProperty` | src/nquad.rs:1473-1560 | an old date key means the new one exactly when that alone is declared |
| `EmissionValues.ReferenceLineStates` | src/nquad.rs:1626-1700 | a reference line states each of its values once or counts it as an error, in order when there is none |
| `EmissionValues.RangeIs` | src/nquad.rs:1626-1650 | the range of a property is looked up by its IRI, in angle brackets or without |
| `EmissionValues.BracketedLine` | src/nquad.rs:1360-1376 | a value with `[[` or `]]` anywhere in it is stated under no key and is an error under every one |
| `EmissionValues.OpenLine` | src/nquad.rs:1945-1979 | a key of no kit states its value once, as text |
| `EmissionValues.OpenLinks` | src/nquad.rs:1945-1979 | a link key states each of its values once and in order, a path as its File and any other text as itself |
| `EmissionValues.OpenLinksTellApart` | src/nquad.rs:1945-1979 | two values of a link key are stated alike only when they are the same |
| `EmissionValues.MarkdownLine` | src/nquad.rs:1389-1403 | an outside link and an unresolved one are stated as they were written |
| `EmissionValues.AnchorsReachReader` | src/nquad.rs:669-697 | a reader finds of every document that its File is a File, and of one that is a Thing its class and which File it comes from |
| `EmissionSafety.LineSafe` | src/nquad.rs:1334-1626 | every statement a control-free line with safe key segments asks for is well formed |
| `EmissionSafety.DocumentReadsBack` | src/nquad.rs:1068-1085 | such a document's text reads back as exactly its quads |
| `EmissionSafety.TypingReadsIff` | src/nquad.rs:1519-1527 | a type statement is well formed exactly when the namespace and the class are safe as written |
| `EmissionSafety.UndeclaredKeyReadsIff` | src/nquad.rs:1575-1581 | a literal on an undeclared key is well formed exactly when the property segment is safe |
| `EmissionSafety.InnerWikilink` | src/resolve.rs:84-110 | values with `[[` inside that the resolver accepts exist, for any texts around it |
| `Validation.CollectKitValues` | src/extraction.rs:497-540 | the loop takes the class of the kit's first key and every value of its keys, or stops at a refused shape |
| `Validation.WriteProperties` | src/extraction.rs:423-475 | the property loop writes the specified Turtle by the document's first class and the shapes' declarations, or stops at a refused value |
| `Validation.LineMatchesValidation` | src/extraction.rs:423-475 | on one line sync reports no error exactly when sync's reading accepts the value and it has no `[[` or `]]`, and validation accepts exactly when validation's own reading does |
| `Validation.JudgedAlikeIff` | src/extraction.rs:294-456 | for every value of a key free of `[[` and `]]` the two verdicts are the same exactly when the declarations put sync's reading and validation's in one lane |
| `Validation.WikilinkAccepted` | src/extraction.rs:466-475 | on any key of which validation lets something through it writes a text with `[[` in it, `see [[x]]` on a literal key, that is an error to sync |
| `Validation.JudgedAlikeAlwaysIff` | src/nquad.rs:1352-1376 | for every value without exception they are the same exactly when neither reading lets anything through |
| `Validation.OwnClassJudgedAlikeIff` | src/nquad.rs:1554-1592 | on the document's own class they are the same for every value free of `[[` and `]]` exactly when the property is declared a reference there, is no reference at all, or is a domain-open one whose range is a class |
| `Validation.SecondClassJudgedAlikeIff` | src/extraction.rs:519-535 | for a reference of a later class that the first class does not declare they are the same for every value free of `[[` and `]]` exactly when its range is a class |
| `Validation.DeclaredLineSameTargets` | src/extraction.rs:432-456 | an accepted value of a declared reference names the same targets, one a value and in order, in validation's Turtle and in sync's statements |
| `Validation.BobAccepted` | src/extraction.rs:432-475 | `soul.Note.relatedTo: bob`, declared without a domain, and `soul.Journal.previous: bob` in a Note are accepted by validation and errors to sync |
| `ValidationLaws.CollectJoins` | src/extraction.rs:497-540 | later entries add their values behind the earlier ones, and the class is the earlier ones' when they have one |
| `ValidationLaws.EntryGives` | src/extraction.rs:497-540 | an entry under kit.Seg.prop gives the class of its segment and each of its values under its property, or refuses the document |
| `ValidationLaws.OtherKeysGiveNothing` | src/extraction.rs:497-540 | an entry under any other key gives nothing |
| `ValidationLaws.ValuesInOrder` | src/extraction.rs:352-495 | the Turtle of a document is the Turtle of its values, in order |
| `ValidationLaws.LiteralReadsBackIff` | src/extraction.rs:352-495 | a reader of a written literal gets its value, datatype and predicate back exactly when there is no line break in the value; with one the text cannot be read |
| `EmissionSafety.RenamedLineSame` | src/nquad.rs:1539-1552 | a sidecar line under an old date key replays to what the line under the new key says, whatever its value |
| `EmissionSafety.LinkErasAgree` | src/nquad.rs:1424-1440 | a link with leading slashes, the plain link and the resolved path name one file; a link is an error exactly when it does not resolve |
| `Heal.ParseRenameRecords` | src/heal.rs:58-76 | the iterator loop reads the specified renames from the fields |
| `Heal.RecordsReadBack` | src/heal.rs:56-76 | whatever records surround them, exactly the renames are read, in order |
| `Heal.HealedResolvesIff` | src/heal.rs:123-135 | from any directory a healed link resolves to the new path with its own fragment exactly when that path is normal, has no `#` and nothing the decoder takes for an escape |
| `HealContent.HealDestination` | src/heal.rs:106-141 | one destination is resolved as the extractor does and rewritten for the first matching rename |
| `HealContent.HealText` | src/heal.rs:87-161 | in whatever order the destinations are met, sorting and splicing back to front gives the document with every destination replaced in place and every other character kept, and the count |
| `HealContent.EditsAnyOrder` | src/heal.rs:144-156 | the collected edits are one multiset in every order |
| `HealContent.SpliceStep` | src/heal.rs:156-159 | replacing a range does not move the ranges before it |
| `HealHistory.LinkFollows` | src/heal.rs:106-141 | a destination is rewritten exactly when it names a moved file, and then names that file's new path from every directory |
| `HealHistory.DocumentFollows` | src/heal.rs:87-161 | over a whole document: text and other links untouched, every link to a moved file follows it |
| `HealHistory.HealedDocumentStays` | src/heal.rs:80-161 | when no new path is an old one, a second healing rewrites nothing |
| `HealHistory.HealedAgainIff` | src/heal.rs:120-135 | a healed link is healed again exactly when its new path is an old one |
| `HealHistory.SwapHealsBack` | src/heal.rs:120-135 | when two files swap names the second healing sends the link back |
| `HealHistory.LinkFollowsHistory` | src/heal.rs:166-210 | over any history of saves a link written from the root names its file wherever it has got to, even while the document moves |
| `HealHistory.RelativeLinkFollows` | src/heal.rs:166-210 | so does a relative link as long as the document has not left its directory before the file first moves; until then it is untouched, and from then on it names the file from every directory |
| `Hooks.InstallHook` | src/hooks.rs:145-197 | the text part of the installation, with its refusal of unbalanced markers |
| `Hooks.ReplaceManagedSection` | src/hooks.rs:259-283 | the loop with its flag computes the specified lines |
| `Hooks.InstalledShape` | src/hooks.rs:145-197 | what is left is the kept lines in order with one whole section among them |
| `Hooks.InstallFixpointIff` | src/hooks.rs:134-197 | installing again changes nothing exactly when no kept line ends in a carriage return |
| `Hooks.OrderedSectionReplaced` | src/hooks.rs:259-283 | a section in its place is replaced there and every line around it kept |
| `Hooks.ReversedMarkersLoseTail` | src/hooks.rs:159-181 | with the markers the wrong way round the check passes and the lines after the start marker are lost |
| `Hooks.OneOfEachMarker` | src/hooks.rs:159-181 | with one marker of each kind one of these two is the case, with what is left and which lines are the user's |
| `Hooks.NothingLostIff` | src/hooks.rs:259-283 | then no line of the user's is lost exactly when the start marker comes before the end marker or is the last line |
| `Hooks.RemoveAfterInstall` | src/hooks.rs:215-255 | taking the section out leaves the kept lines and the one line put in front of an added section |
| `HookLaws.OldHookReplaced` | src/hooks.rs:102-204 | a hook of nothing but a shebang, blank lines and old commands is written anew |
| `HookLaws.OldCommandGoes` | src/hooks.rs:102-119 | which lines an installation drops as old commands: six, in any padding, and no others |
| `HookLaws.MarkerIff` | src/hooks.rs:145-180 | a marker is known by its whole text, whatever white space is around it |
| `Gitignore.EnsureText` | src/kit.rs:2021-2050 | the block is replaced in place or appended |
| `Gitignore.RemoveText` | src/kit.rs:2091-2128 | the block and bare git-lex lines are taken out and reported |
| `Gitignore.ReplacedInPlace` | src/kit.rs:2036-2045 | a block after clean text is replaced where it stands, whatever entries it gets |
| `Gitignore.EnsureTwiceIff` | src/kit.rs:2009-2050 | a second run changes nothing exactly when there were no markers or a begin marker stood before the first end marker |
| `Gitignore.ReversedGrows` | src/kit.rs:2036-2045 | with the end marker first, every run leaves the file longer, the markers still reversed |
| `Gitignore.LoneBeginLosesText` | src/kit.rs:2036-2050 | with a begin marker alone, the second run deletes everything from it to the appended block |
| `Gitignore.RemoveUndoesIff` | src/kit.rs:2084-2128 | removal restores the original exactly when it ended in one newline and no line named a git-lex directory |
| `Gitignore.GitLexLineIff` | src/kit.rs:2071-2083 | a line is git-lex's own exactly when it names one of its four directories, with or without a slash at the end and in any padding |
| `RepoYml.ReadList` | src/git2_nquads.rs:207-261 | the part of the line reader that reads one list |
| `RepoYml.AppendItem` | src/kit.rs:52-97 | given what the list holds, the search, the insertion point and the rewritten text, or nothing |
| `RepoYml.AppendTwice` | src/kit.rs:49-60 | in a block-style file the second append finds the item and leaves the file alone |
| `RepoYml.AppendThenRemove` | src/kit.rs:52-162 | appending an item that is not there and removing it leaves the list as it was |
| `RepoYml.RemoveItem` | src/kit.rs:102-162 | the loop with its held-back key line and the rewritten text |
| `RepoYml.AppendReads` | src/kit.rs:49-97 | in a block-style file one line is inserted, and the list reads as before with the item once at the end |
| `RepoYml.AppendToMissing` | src/kit.rs:84-92 | with no such key, the key and the item go to the end and every line before stays |
| `RepoYml.RemoveReads` | src/kit.rs:99-162 | the list reads without the item |
| `RepoYml.RemovedIs` | src/kit.rs:99-162 | every other line is kept in order; an emptied list loses its key and one blank line before it |
| `RepoYml.EmptiedLosesKey` | src/kit.rs:99-101 | an emptied list has no key line any more |
| `RepoYml.RemoveTwice` | src/kit.rs:99-101 | removing again changes nothing |
| `RepoYml.RemovalIdleIff` | src/kit.rs:99-162 | a removal leaves the lines of any file alone exactly when right under each line of the key stands an item and no item under one is the one to be removed; otherwise the file gets shorter |
| `RepoYml.RemovedFileSameIff` | src/kit.rs:102-162 | any file is written as it was exactly then, and when it was written as the program writes it |
| `RepoYml.AbsentItemRemoved` | src/kit.rs:99-143 | removing an absent item drops a blank line under the key, and a key without items |
| `RepoYml.ListWithoutItemsGoes` | src/kit.rs:120-151 | a key line that no item follows goes, whatever it holds, and so does one blank line before it |
| `RepoYml.FlowListRemoved` | src/kit.rs:120-151 | removing any item from `optional_kits: [a, b]` leaves nothing of the list |
| `RepoYml.FlowListReplaced` | src/kit.rs:49-97 | of a list on its key line the line reader reads nothing, and after an append the new item alone |
| `RepoYml.AppendedFileReads` | src/kit.rs:52-97 | read from the file's new text, after `lines`, `join` and the final newline |
| `RepoYml.RemovedFileReads` | src/kit.rs:102-162 | read from the file's new text |
| `RepoYmlLaws.ItemLineReads` | src/git2_nquads.rs:209-226 | an item line under an open key gives its item without double quotes and with single ones, and opens and closes no key |
| `RepoYmlLaws.CommentsSkipped` | src/git2_nquads.rs:209-213 | a blank line and a comment give nothing and leave the open key as it is |
| `RepoYmlLaws.NameLineOpens` | src/git2_nquads.rs:227-231 | any other line with a colon opens the key before it and closes every other |
| `RepoYmlLaws.ItemLineParses` | src/kit.rs:126-129 | the remover knows an item by its text, whatever the quotes and the space after its dash |
| `RepoYmlLaws.SingleQuotedRemoved` | src/kit.rs:126-129 | of a list with the one item `'x'` the reader reads the item with its quotes, and removing `x` leaves nothing |
| `Frontmatter.SplitFrontmatter` | src/lib.rs:474-492 | the walk with its offset gives the block before the first closing line and the body after it |
| `Frontmatter.FramedBack` | src/lib.rs:458-492 | a block written between fences reads back as that block and that body, whatever the body |
| `Frontmatter.FramedShape` | src/lib.rs:458-492 | opener, block, closing line and body make up the document, and no line of the block closes it |
| `Frontmatter.FramedBetween` | src/lib.rs:458-492 | either line ending opens a block; three dashes at the beginning of a line and nothing but white space after them close it, before a line break or at the end of the document; no other line does |
| `SoulMd.HealedContent` | src/soul_md.rs:136-206 | the three rewrites and the reported previous value |
| `SoulMd.HealedOnce` | src/soul_md.rs:122-206 | a healed document holds the sha, and healing it again does nothing |
| `SoulMd.OnlyTheLine` | src/soul_md.rs:12-14 | line by line, the body and every other line of the block stay, the comment on the line stays, and the old value is reported |
| `SoulMd.OnlyTheBytesIff` | src/soul_md.rs:146-206 | an inserted line leaves the block as it was byte for byte; a replaced one exactly when no other line of it ends in a carriage return |
| `SoulMd.ReturnLost` | src/soul_md.rs:183-194 | a document whose other line ends in CRLF loses the carriage return |
| `SoulMd.WrittenValueReads` | src/soul_md.rs:160-180 | the id is read without the white space around it, without quotes of either kind and without a comment |
| `SoulMd.HeldIdStays` | src/soul_md.rs:146-182 | a document that holds the id already, however it is written, is left as it is; the first identity line counts |
| `Spine.SpineWriter.Shorten` | src/export_spine.rs:188-217 | the closure's answer, and the prefix and base it records as used |
| `Spine.SpineWriter.ShortenObject` | src/export_spine.rs:306-318 | a typed literal's datatype is shortened too |
| `Spine.SpineWriter.CollectRows` | src/export_spine.rs:219-242 | one row a named fact, with the prefixes and the base its subject, predicate and object use recorded, those of a quad about a triple term too |
| `Spine.SpineWriter.WriteSpine` | src/export_spine.rs:219-275 | header and rows, sorted and without repetition |
| `Spine.SpineOfASet` | src/export_spine.rs:19-21 | header and rows depend on the set of facts alone |
| `Spine.LongestNamespaceWins` | src/export_spine.rs:183-205 | an IRI is written with the longest namespace that leaves it a local name |
| `SpineReading.RowColumns` | src/export_spine.rs:235-240 | a row splits at its tabs into exactly its three terms |
| `SpineReading.DeclaredExactly` | src/export_spine.rs:229-267 | the header declares a prefix, or the base, exactly when some row uses it or some skipped quad about a triple term does |
| `SpineReading.HeaderNeededIff` | src/export_spine.rs:229-239 | it declares no more than the rows use exactly when no skipped quad uses a form that no row uses |
| `SpineReading.TripleDeclares` | src/export_spine.rs:234-239 | a store whose one quad is about a triple term has no row and a header with the base and the prefix |
| `IriResolution.ResolvedUnderRoot` | src/export_spine.rs:205-215 | a reference without a scheme, resolved by section 5.2 of RFC 3986 against a root, is what it says under the root exactly when it has no leading slash and no dot segment in its path, and something shorter otherwise |
| `SpineReading.ShortIriReadsIff` | src/export_spine.rs:196-215 | with the file's header a shortened IRI is read as the IRI exactly when, if written relative to the base, its tail has no scheme and is such a reference |
| `SpineReading.LiteralUntouched` | src/export_spine.rs:306-318 | no text of a plain literal is taken for a datatype |
| `SpineReading.RowReadsBack` | src/export_spine.rs:176-274 | with the file's header a row is read as its fact exactly when the fact is plain, and as one with shorter IRIs otherwise |
| `SpineReading.FileReadsBackIff` | src/export_spine.rs:176-274 | the file's lines, read from the first comment to the last row, say exactly the store's named facts exactly when every one of them is plain |
| `SpineReading.RowsTellFactsApart` | src/export_spine.rs:243-244 | two plain facts never share a row, so only repeated facts are dropped |
| `SpineReading.AbsoluteUnderBase` | src/export_spine.rs:208-215 | an absolute IRI and the same text under the base are written alike |
| `Ancestors.FindParent` | src/context.rs:256-270 | the frontier loop ends on every graph and gives the specified answer |
| `Ancestors.NearestIsNearest` | src/context.rs:257-270 | the answer is a described class above with none nearer; there is none exactly when none is above |
| `Ancestors.NearestIsAbove` | src/context.rs:257-270 | on a ranked graph the answer is another, lower class |
| `Ancestors.NoOwnParentIff` | src/context.rs:257-270 | no class is its own parent, whatever is described, exactly when the graph has no cycle |
| `Ancestors.OwnParent` | src/context.rs:262-270 | on a two-class cycle a class is its own parent |
| `Ancestors.NearestIsFirstFound` | src/context.rs:257-270 | among the nearest described classes the answer is the end of the first path, paths compared step by step in the order the parents are listed |
| `Ancestors.FirstNamedIff` | src/context.rs:257-270 | the answer is the first by name of the nearest, whatever is described, exactly when at each distance classes are found in the order of their names |
| `Ancestors.ParentsInOrder` | src/context.rs:259-262 | one step up they are |
| `Ancestors.FirstFoundNotFirstNamed` | src/context.rs:257-270 | two steps up the first found is taken even where another comes first by name |
| `Ancestors.OverlayStepIff` | src/context.rs:271-277 | own properties laid over the parent's full ones give the class's full ones exactly when the class carries the parent's |
| `Ancestors.ListingRecoversIff` | src/context.rs:271-277 | reading a whole extends chain by the listing's rule is right for every class on it exactly when each carries its parent's properties |
| `Ancestors.UniversalLeftOut` | src/context.rs:271-277 | a listing shows nothing that every Thing carries, and as a class's own exactly the properties that the class it extends does not have just so |

## Left out

- Parsing of Markdown, YAML and Turtle, RDF storage and SPARQL, libgit2: their answers are parameters.
- File-system errors: a read that fails is a document without content in the walk; a write that fails is not modelled, except as a killed walk or a dead process.
- The walk's list of files, template and ignore rules (`walk_repo_docs`): the list is a parameter.
- Two walks of one repository at the same time.
- `WalkHistory.CachedWalksAreFullWalks`: asks that the documents a walk takes from the cache are settled and no suspects, which the code does not check; `WalkCorrect.ExtractionSameIff`, `WalkStale.OneStaleFragmentIff` and `WalkRight.CachedWalkRightIff` say what happens otherwise.
- `Links.LineMovesIff`: a document whose path begins with `md.` could have a path that makes two different lines one text; for it only the half that the walk needs is proved.
- `WalkCorrect.SaveSound`: the manifest is one value and pruning is one write; its tab-separated text form and the order in which orphan fragments are removed are not modelled.
- `WalkRight.CachedWalkRightIff`: namespaces without a slash, which a kit's short name and a slugified `name:` are; document paths without ` | ` and links without a blank destination; a walk that builds the N-Quads, and documents nothing else has touched (for those see `WalkStale.OneStaleFragmentIff`).
- `DirtySidecars.SourceFoundIff`: how git escapes a character is a parameter; a directory that git lists as one untracked row is no sidecar's row.
- `Migration.MigrationKeepsFactsIff`: the new namespace is free, and every installed file follows it: what a kit's own file says alone, with the others left behind, is not modelled. Type statements are no facts here, and move with every class of the kit.
- `Registry.Serialised`: advisory locking, atomic rename and the reading of the clock are the steps of the protocol; how the file system provides them is not modelled.
- `RegistryRows.FoldIdempotent`: `canonicalize` is a parameter, so that resolving is idempotent is a condition.
- `Timestamps.FormattedReadsBack`: needs `seconds + offset * 60` to stay inside an i64; where it does not, the source overflows (`Timestamps.OverflowsIff`).
- `NQuads.ReadRendered`: the reader knows no `\u` escapes, comments or blank nodes, none of which the emitter writes.
- `EmissionLaws.FactsAreTyped`: class segments resolve to names without dots, so that a kit and a class cannot be confused with another split of the same text.
- `EmissionSafety.DocumentReadsBack`: the `git:path` and `git:blobHash` statements that the walk writes before the anchors are not part of it.
- `HealContent.HealText`: the parser's destinations are given as pieces of the text; positions are characters where the source counts bytes.
- `HealHistory.RelativeLinkFollows`: a relative link of a document that leaves its directory before its target moves is not healed by the program either.
- `Hooks.InstallHook`: the shell lines between the markers, the file's permissions and the removal of an empty hook file are not modelled.
- `Gitignore.EnsureText`: which entries the block gets depends on the disk and is a parameter; reporting tracked paths is left out.
- `RepoYml.AppendReads`: stated for block-style lists with no comment between items; what the line reader makes of a list in flow style is `RepoYml.FlowListReplaced`. What a YAML parser makes of the edited text is not modelled.
- `RepoYml.AppendItem`: the guard against repeated items uses the YAML reader, whose list is a parameter; `RepoYml.AppendTwice` takes it to read a block-style list as the line reader does.
- `Validation.LineMatchesValidation`: the shapes' own constraints, which are checked on the Turtle, are not modelled; a value with a line break in it, which sync reads on one line, is `ValidationLaws.LiteralReadsBackIff`.
- `Joins.RangeReferenceJoins`: the range of all Things, which takes no bare ids.
- `SpineReading.FileReadsBackIff`: IRIs of the store are absolute and prefix names distinct; the identity header is any list of comment lines, and the manifest is left out.
- Warnings and teaching texts, prompts, HTTP, process control, kit fetching, substrates, folder audits and the daemon: presentation or file-system orchestration.
- `ensure_repo_yml_header` and `identity_yml_rewrite_decision` (src/git.rs): short text rules that would add easy members only.
