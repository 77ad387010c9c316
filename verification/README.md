# Landns in Dafny

Landns is a DNS server for developers: static records from a configuration, dynamic records in SQLite or etcd behind a
small REST API, and a caching forwarder behind both. This project models the parts of it that keep state or translate
text, and proves what holds of them for every input, every run and every interleaving.

`dafny verify dfyconfig.toml` checks the whole project.

## What is modelled

**The dynamic store, twice and once more.** `Store` is the reference: rows keyed by the text of a record without its
TTL, numbered from a counter that only grows, changed by two row operations. `Sqlite.SqliteResolver` is a class that
changes SQL rows statement by statement; `EtcdResolver.EtcdResolver` is a class that changes the keys of a key-value
store. Each method of the two classes is proved against the reference table. On top of that table:

- `Backends.SideBySide` runs both classes through one arbitrary client history and proves that they hold the same rows,
  numbers and TTLs at every point, until etcd fails; `Backends.Ask` proves that they then answer every question with the
  same records, and `Agreement` that they list the same records, or exactly when.
- A batch is a family of independent folds, one for each row; lines that name no common row commute; a batch applied
  twice leaves what it leaves once (`Store`).
- Forward and reverse records stay paired over every run of batches and expiry sweeps (`Pairing`), and the sweeper
  changes no answer but where a drop names a number it made differ (`Expiry`).
- Where the backends differ, the difference is stated exactly: drops and inserts that carry an ID, volatile addresses,
  suffix searches, globs.

**Search and globs.** `Globs` proves that any chain of `ReplaceAll` calls is one simultaneous substitution and what the
resulting `LIKE` patterns match. `Regexps` is the part of Go's regular expressions that compiled globs reach, errors
included, and `CompiledGlobs` proves which globs compile and which mean what they say. `Search` proves what a suffix
search finds in each backend, and that the suffix endpoint undoes the path of a name.

**Text forms.** `Records` and `Addresses` print and parse the eight record types and their addresses; `DynamicText` does
the same for records with annotations and for record sets, with a receiver class that the parser fills field by field;
`JsClient` models the JavaScript client, its regular expressions with their backtracking included.

**The REST handlers.** `RestApi.DynamicAPI` parses a body, flips it in place for DELETE, hands it to the store and counts
its lines. POST followed by DELETE of one body, and DELETE of the text a GET answered (`Listings`), are followed through
all layers, with the placeholders of a body (`Placeholders`) and the semicolons that a text cannot carry (`Semicolons`).
`EtcdApi.DynamicAPI` is the same over etcd, where a failed batch keeps its earlier lines.

**The cache.** `LocalCache.LocalCache` is the TTL cache with its in-place header rewriting and its sweeper.
`LockProtocol` is the mutex and the wake-up channel as a state machine over all interleavings.

**The resolver tree.** `Resolvers` runs arbitrarily nested `ResolverSet` and `AlternateResolver` values over response
writers with nested hooks; `SimpleResolver` is the static index.

## What turned out otherwise

These are properties one would expect of the code and that it does not have; each is stated with the exact condition
under which it does hold.

- A cache that is asked to add more than 100 records, by however many questions, can stop for good: a resolver holds the
  mutex and waits for room on the wake-up channel, and the manager waits for the mutex (`LockProtocol.DeadlockThreshold`).
- Answers to other questions can put records under a name after the sweeper took its list; then the sweeper shows
  (`LocalCache.SweeperIsInvisible`).
- A comment line with nothing in it, a line that sets a default (`$ORIGIN example.com.`) and a TXT record without a text
  make reading a body panic: the client gets no answer, and no line of the body is applied (`RestApi.BodyPanics`,
  `DynamicText.SemicolonPanics`). The zone parser makes no record of the first two and calls that no error.
- A TXT record with a semicolon in its text breaks every text form. SQLite stores and lists it, but its listing cannot be
  read back: an enabled line is an error and a disabled one vanishes (`DynamicText.SetRoundTripIff`,
  `DynamicText.ReadStopsAtSemicolon`), so DELETE of a full listing is refused when it shows one
  (`Listings.DeleteListing`). etcd stores it in a form it cannot read (`Etcd.UnmarshalMarshal`): after that no listing and
  no removal by number succeeds any more (`EtcdResolver.InsertKeepsLegible`).
- DELETE of a full listing leaves rows behind: those whose line shows the time left in place of the stored TTL, and those
  that are not shown (`Listings.ListingDrops`, `Listings.NoneSurvives`).
- The JavaScript client throws on every listing that shows an NS or an MX record (`JsClient.ListingIsRead`): an NS line
  has no TTL, and MX is not among the client's classes.
- Asking etcd for ID 4 also reaches ID 42 (`Backends.DropWithIdAgrees`, `Backends.InsertWithIdKeepsUnique`).
- The reverse record that etcd makes for a volatile address is permanent (`Backends.EtcdPairsPermanentRows`).
- SQLite does not find a name that holds `_`, `%` or `\` when it is searched for as its own suffix
  (`Search.SqliteFindsSuffixItself`); etcd finds names that merely begin like the suffix (`Search.EtcdFinds`).
- Question marks, bars and repetitions in braces are not escaped in a glob for etcd: `a|b.` matches `abc.`, and `x{2}.`
  matches `xx.` (`CompiledGlobs.CompiledMeansGlob`).
- A volatile row written again after it expired keeps its number or gets a new one, depending on whether the sweeper came
  by in between (`Expiry.SweeperChangesNoRow`, and `Expiry.RevivedRowsAreRenumbered` for the shortest run).
- An upstream answer with records of another name that have a TTL, as every answer with a CNAME chain, makes the cache
  pile up copies of them (`LocalCache.HonestFill`, `LocalCache.OtherNamesPileUp`).

The repository's README shows names without their trailing dot in listings; the code prints fully qualified names, and
so does the model.

## Model

| member | source | states |
|---|---|---|
| Records.ToPath | lib-landns/records.go:54-61 | the array filled from its end and joined is the path of the labels in reverse order |
| Records.NewRecordText | lib-landns/records.go:75-135 | parsing the printed text of any well-formed record, with any blanks behind it, gives that record back; with blanks before it the text is refused |
| Records.TextFields | lib-landns/records.go:150-458 | how each of the eight types is printed, field by field |
| Records.TypeNumbers | lib-landns/message_types.go:10-31 | the numbers and names of the eight types |
| Records.ParsedWellFormed | lib-landns/records.go:75-135 | whatever record the parser returns, from lines without a final dot or without a TTL too, is well formed |
| Records.PanicTexts | lib-landns/records.go:75-135 | blank texts, $TTL and $ORIGIN directives and TXT records without a text panic |
| Records.ParseOwner | lib-landns/records.go:75-83 | a name without its final dot is made absolute, and a line without a TTL gets 3600; the rest of the record is read as ever |
| Records.ParseWithoutTTL | lib-landns/records.go:85-95 | the text without the TTL and the TTL kept beside it restore the record |
| Records.ParseWithExpire | lib-landns/records.go:97-104 | an unexpired text is read with the time left, rounded half away from zero, as its TTL |
| Records.Clocks | lib-landns/records.go:97-104 | seconds are 1000000000 nanoseconds, Unix times are rounded down, halves of seconds away from zero |
| Records.TextInjective | lib-landns/records.go:150-166 | texts are equal exactly when the records are; texts without TTL exactly when the records agree but for the TTL |
| Records.ReverseRecordInjective | lib-landns/sqlite_resolver.go:119-131 | two address rows have the same reverse row exactly when they are the same row |
| Addresses.ParseText | lib-landns/records.go:150-156 | the text of an IPv4 or IPv6 address, "::" included, determines the address |
| Addresses.V4Labels | lib-landns/records.go:150-156 | the text of an IPv4 address has its four bytes in order |
| Addresses.V6Labels | lib-landns/records.go:150-156 | the text of an IPv6 address without "::" has its eight groups in order |
| Addresses.TextShortens | lib-landns/records.go:150-156 | "::" stands for the first of the longest runs of zero groups, and appears exactly when two zero groups follow each other |
| Addresses.ReverseAddrInjective | lib-landns/sqlite_resolver.go:120 | reverse names are equal exactly when the addresses are |
| Addresses.ReverseV4Labels | lib-landns/sqlite_resolver.go:120 | the reverse name of an IPv4 address has the parts of its text from the last to the first, then in-addr.arpa |
| Addresses.ReverseV6Labels | lib-landns/sqlite_resolver.go:120 | the reverse name of an IPv6 address has its half-bytes from the last to the first, then ip6.arpa |
| Store.IdsNeverReused | lib-landns/sqlite_resolver.go:42-49 | over any operations numbers stay unique, and a number given out before names the row it named or none |
| Store.RowsAreIndependent | lib-landns/sqlite_resolver.go:98-220 | what a row holds after a batch depends only on what it held and on the operations that name it, in their order |
| Store.LinesCommute | lib-landns/sqlite_resolver.go:205-217 | neighbouring lines that name no common row, reverse rows included, can be exchanged anywhere in a batch |
| Store.BatchIdempotent | lib-landns/sqlite_resolver.go:98-220 | a permanent batch without IDs applied twice leaves the content it leaves applied once |
| Store.KeysStayWellFormed | lib-landns/sqlite_resolver.go:98-166 | every batch keeps every row readable |
| Pairing.RunKeepsPairs | lib-landns/sqlite_resolver.go:64-166 | over every run of batches and sweeps each address row has its PTR row, with the same TTL and an expiry no earlier |
| Pairing.DropWithIdKeepsPairs | lib-landns/sqlite_resolver.go:137-166 | a drop that names an ID keeps the pairs exactly when the ID is the row's own or the TTL is not |
| Expiry.SweepIsInvisible | lib-landns/sqlite_resolver.go:64-92 | a sweep removes exactly the rows with an expiry before its second, none of which a query then or later shows, and changes no other |
| Expiry.SweeperChangesNoAnswer | lib-landns/sqlite_resolver.go:64-92 | for all writes and sweeps in order, a query shows the same records, TTLs and expiries as without sweeps, at every point and every time from then on, exactly when no drop by ID meets a row, visible at that time, with that number in one of the two runs only |
| Expiry.NoIdsNoSplit | lib-landns/sqlite_resolver.go:64-92 | without IDs on drops that is always so |
| Expiry.SweeperChangesNoRow | lib-landns/sqlite_resolver.go:64-92 | without IDs on drops, the sweeps change nothing a query shows, numbers and the counter included, exactly when no write meets a row that the sweeper took and that would still be there; with IDs, that suffices |
| Expiry.RevivedRowsAreRenumbered | lib-landns/sqlite_resolver.go:98-117 | the shortest failing run: a row written after it expired has number 2 with a sweep and 1 without |
| Expiry.VisibleRowsConvert | lib-landns/sqlite_resolver.go:222-250 | at one clock reading no row that passes the SQL filter fails the expiry check in Go |
| Expiry.ShownTTLBound | lib-landns/sqlite_resolver.go:235-241 | the TTL shown never exceeds the stored one and is within half a second of the time left |
| Expiry.FreshAfterBatch | lib-landns/sqlite_resolver.go:98-102 | no batch writes an expiry later than the TTL allows, so the bound above holds of every store |
| Expiry.LineWritten | lib-landns/sqlite_resolver.go:98-135 | an enabled line writes its own row and the reverse row of an address, with its TTL, the number the row had or the next one, and for a volatile line an expiry at the end of the TTL, within the second; no other row changes |
| Expiry.LineDropped | lib-landns/sqlite_resolver.go:137-166 | a disabled line removes its own row if TTL and number fit and the reverse row if the TTL fits; no other row changes |
| Expiry.VisibleUntilExpiry | lib-landns/sqlite_resolver.go:252-258 | a row is shown exactly until it expires |
| Globs.Rewrite | lib-landns/sqlite_resolver.go:303-313 | the loop over the replacements computes the chain of ReplaceAll calls |
| Globs.ChainIsSubstitution | lib-landns/etcd_resolver.go:304-321 | any such chain equals one simultaneous substitution of each character by what the chain makes of it alone |
| Globs.StarTakesAnyPrefix | lib-landns/etcd_resolver.go:318 | a star of a glob stands for any text |
| Globs.LikePatternMeaning | lib-landns/sqlite_resolver.go:299-318 | for all globs and names the LIKE pattern matches what the glob means, up to ASCII case |
| Globs.EscapeLikeMeaning | lib-landns/sqlite_resolver.go:273-283 | an escaped text matches only itself, up to ASCII case |
| Globs.FoldMeaning | lib-landns/sqlite_resolver.go:299-318 | two texts fold alike exactly when they differ only in the case of ASCII letters |
| CompiledGlobs.CompileGlobIsSubstitution | lib-landns/etcd_resolver.go:304-321 | the ten replacements equal one substitution: escaped punctuation and ".*" |
| CompiledGlobs.CompiledIsRead | lib-landns/etcd_resolver.go:323-326 | for every glob, parsing its regular expression is reading the glob itself, with what bars, question marks and braces come to mean, and fails on the same globs |
| CompiledGlobs.CompileGlobMeaning | lib-landns/etcd_resolver.go:304-329 | a glob without question marks, bars and repetitions in braces compiles, to an expression that accepts exactly what the glob means |
| Regexps.WitnessMatches | lib-landns/etcd_resolver.go:323-328 | an alternative with its anchors at its ends accepts the text in which every repetition is taken as seldom as allowed |
| CompiledGlobs.ForgottenAcceptsMore | lib-landns/etcd_resolver.go:305-319 | every other glob that compiles accepts a name that the glob does not mean |
| CompiledGlobs.CompiledMeansGlob | lib-landns/etcd_resolver.go:304-329 | for every glob: it compiles and means the glob on all names exactly when it holds no question mark, no bar and no repetition in braces |
| CompiledGlobs.QuestionMeans | lib-landns/etcd_resolver.go:305-319 | `c?` accepts one `c` or nothing |
| CompiledGlobs.BracesMean | lib-landns/etcd_resolver.go:305-319 | `c{m,n}` accepts from m to n times `c` |
| CompiledGlobs.BracesRefused | lib-landns/etcd_resolver.go:323-326 | more than 1000 times, a repetition of nothing and one of a repetition are errors |
| CompiledGlobs.BarMeans | lib-landns/etcd_resolver.go:305-323 | `a|b` accepts what starts with `a` and what ends with `b` |
| CompiledGlobs.BackendsAgreeOnGlobs | lib-landns/sqlite_resolver.go:299-327 | on lower-case input such globs pick the same names in both backends |
| Sqlite.UpdateMeaning | lib-landns/sqlite_resolver.go:198-204 | UPDATE changes exactly the row of the record's text, and no row if there is none |
| Sqlite.InsertMeaning | lib-landns/sqlite_resolver.go:191-196 | INSERT adds the row of a new key under the next number of the sequence |
| Sqlite.DeleteMeaning | lib-landns/sqlite_resolver.go:177-189 | DELETE removes exactly the keys whose rows satisfy the condition and changes no other |
| Sqlite.SqliteResolver.InsertRecord | lib-landns/sqlite_resolver.go:98-135 | the table becomes the reference table after the upsert of the record and of its reverse record |
| Sqlite.SqliteResolver.DropRecord | lib-landns/sqlite_resolver.go:137-166 | the table becomes the reference table after the drop by exact TTL, and ID if given, and the drop of the reverse record |
| Sqlite.SqliteResolver.SetRecords | lib-landns/sqlite_resolver.go:168-220 | a batch does its lines' operations in their order when the transaction commits, and nothing when it does not |
| Sqlite.SqliteResolver.DeleteExpired | lib-landns/sqlite_resolver.go:64-92 | one tick removes exactly the rows that expired before the current second |
| Sqlite.SqliteResolver.RemoveRecord | lib-landns/sqlite_resolver.go:346-362 | exactly the row with the number is removed; without one the result is the error and nothing changes |
| Sqlite.ScanRecords | lib-landns/sqlite_resolver.go:222-250 | every row is converted in its order, and an error is that of the first row that does not convert |
| Sqlite.VisibleRowConverts | lib-landns/sqlite_resolver.go:230-247 | a stored row that has not expired is converted to its key with the TTL to show |
| Sqlite.SqliteResolver.AllRecords | lib-landns/sqlite_resolver.go:252-267 | the unexpired rows, each once, in the order of their numbers, never an error |
| Sqlite.ListingShows | lib-landns/sqlite_resolver.go:222-250 | a listing shows a visible row with its number, its key, whether it expires, and the stored TTL or one within half a second of the time left |
| Sqlite.SqliteResolver.SearchRecords | lib-landns/sqlite_resolver.go:269-297 | the unexpired rows whose names the suffix condition finds |
| Sqlite.SqliteResolver.GlobRecords | lib-landns/sqlite_resolver.go:299-327 | the unexpired rows whose names the glob means up to ASCII case |
| Sqlite.SqliteResolver.GetRecord | lib-landns/sqlite_resolver.go:329-344 | the unexpired row with the number |
| Sqlite.SqliteResolver.Resolve | lib-landns/sqlite_resolver.go:364-405 | the unexpired records of the name and type, each once |
| Sqlite.AnswerShows | lib-landns/sqlite_resolver.go:364-405 | an answer holds records of the name and type asked for, each that of a visible row, and misses none |
| Etcd.UnmarshalMarshal | lib-landns/records.go:525-568 | reading a stored value gives the record and expiry that were written, or says that it has expired; it fails exactly for TXT records with a semicolon |
| Etcd.StoredTexts | lib-landns/records.go:556-568 | every file is in the store under the prefix, the reversed labels and the number, as its text and, if it expires, a semicolon and the Unix time |
| Etcd.FileLives | lib-landns/dynamic_resolver.go:117-126 | a volatile record expires at the end of its TTL, within the second, and a permanent one never |
| Etcd.IdOfKey | lib-landns/etcd_resolver.go:124-129 | the number read from a key is the number the record was filed under, whatever its name |
| Etcd.PutFile | lib-landns/etcd_resolver.go:226 | writing a record's key changes that file and no other |
| Etcd.DeleteFile | lib-landns/etcd_resolver.go:172 | deleting a file's key removes exactly that file |
| Etcd.TextMatches | lib-landns/etcd_resolver.go:104-109 | the comparisons of texts in findKey are comparisons of records |
| Etcd.InsertStepIsPut | lib-landns/etcd_resolver.go:195-231 | inserting a record without an ID is the upsert of the reference store |
| Etcd.DropStepIsDrop | lib-landns/etcd_resolver.go:165-175 | dropping a record without an ID from a permanent store is the drop of the reference store |
| EtcdResolver.EtcdResolver.MakeKey | lib-landns/etcd_resolver.go:65-86 | the number is the next after the stored counter, the counter is raised, no file changes |
| EtcdResolver.EtcdResolver.FindKey | lib-landns/etcd_resolver.go:88-122 | a key found is that of a file under the record's own key that matches; none is found only if no file there matches; it fails only where a file there has expired or cannot be read |
| EtcdResolver.EtcdResolver.InsertSingleRecord | lib-landns/etcd_resolver.go:195-231 | the matching file is overwritten or a new file is made under the next number |
| EtcdResolver.EtcdResolver.InsertRecord | lib-landns/etcd_resolver.go:233-254 | the record, then its reverse record, which is always permanent |
| EtcdResolver.EtcdResolver.DropRecord | lib-landns/etcd_resolver.go:165-193 | a file that shows the record is removed if there is one, then one of the reverse record |
| EtcdResolver.EtcdResolver.SetRecords | lib-landns/etcd_resolver.go:256-276 | a chain of line steps, which a failure breaks off after the earlier lines and perhaps half of its own; on a permanent store a permanent batch without IDs that does not fail does what it does to the reference store, and cannot fail without semicolons |
| EtcdResolver.InsertKeepsLegible | lib-landns/etcd_resolver.go:131-143 | an insert keeps the store legible exactly when the record is no TXT record with a semicolon |
| EtcdResolver.EtcdResolver.ReadResponses | lib-landns/etcd_resolver.go:131-163 | the unexpired files among the keys, each once, with their numbers and the time left; an error exactly when one of them cannot be read, and never for an expired one |
| EtcdResolver.EtcdResolver.AllRecords | lib-landns/etcd_resolver.go:278-289 | all unexpired files, or an error exactly when a file cannot be read |
| EtcdResolver.EtcdResolver.SearchRecords | lib-landns/etcd_resolver.go:291-302 | the unexpired files whose keys start with the path of the suffix, or an error exactly when one of those cannot be read |
| EtcdResolver.EtcdResolver.GlobRecords | lib-landns/etcd_resolver.go:331-350 | the unexpired files whose names the compiled glob accepts, or an error exactly when the glob does not compile or any file cannot be read |
| EtcdResolver.EtcdResolver.GetRecord | lib-landns/etcd_resolver.go:352-365 | the unexpired file with the number, or nothing, or an error exactly when any file cannot be read |
| EtcdResolver.EtcdResolver.RemoveRecord | lib-landns/etcd_resolver.go:367-384 | the key made again from the record removes exactly the file with the number; without one, or when any file cannot be read, the result is an error and nothing changes |
| EtcdResolver.EtcdResolver.Resolve | lib-landns/etcd_resolver.go:396-414 | prefix search and filter together equal a scan of all files for the name and type; an error exactly when a file under the path cannot be read |
| Backends.SideBySide | lib-landns/dynamic_resolver_test.go:13-32 | both backends, started empty, hold the same rows, numbers and TTLs after any history of permanent batches without IDs and removals, until a step fails in etcd; that needs a TXT record with a semicolon in its store |
| Backends.Take | lib-landns/etcd_resolver.go:256-276 | backends with the same rows have the same rows after a step that both take and give the same result; a step fails in etcd only where its store has a TXT record with a semicolon |
| Backends.Ask | lib-landns/etcd_resolver.go:396-414 | backends with the same rows answer every question with the same multiset of records |
| Agreement.SameListing | lib-landns/dynamic_resolver_test.go:13-32 | a listing of rows and a listing of files that stand for them have the same records, numbers included, exactly when their conditions pick alike |
| Agreement.AskAll | lib-landns/etcd_resolver.go:278-289 | backends with the same rows list the same records |
| Agreement.AskId | lib-landns/etcd_resolver.go:352-365 | and the same record for every number |
| Agreement.AskGlob | lib-landns/etcd_resolver.go:331-350 | and the same for a glob that compiles exactly when it answers alike on every stored name; always for lower-case names and globs without forgotten characters |
| Agreement.AskSuffix | lib-landns/etcd_resolver.go:291-302 | and the same for a suffix exactly when path prefix and SQL condition agree on every stored row |
| Agreement.SearchesAgree | lib-landns/etcd_resolver.go:291-302 | on a lower-case row and suffix without LIKE characters they agree exactly when the path prefix does not reach a name that is not at or below the suffix |
| Backends.RunsNeverReuseIds | lib-landns/etcd_resolver.go:65-86 | over every history a number once given out never names another row |
| Backends.EtcdPairsPermanentRows | lib-landns/etcd_resolver.go:244-250 | after an insert in etcd the address and its PTR row are paired exactly when the address is permanent |
| Backends.DropWithIdAgrees | lib-landns/etcd_resolver.go:88-92 | a drop by ID does the same in both backends exactly when the record is not filed under a longer number that starts with the ID |
| Backends.InsertWithIdKeepsUnique | lib-landns/etcd_resolver.go:195-206 | an insert with an ID files no record twice exactly when every file of the record has a number that starts with the ID |
| Search.LabelsOfName | lib-landns/records.go:54-60 | the labels of a name are the labels it was made of |
| Search.SuffixDomain | lib-landns/rest_api.go:117-132 | the rest of the path, split at slashes and reversed in an array, or not found under the three conditions of the handler |
| Search.ValidNames | lib-landns/rest_api.go:117-132 | which names the endpoint takes: those with labels under 64 characters and 256 characters in all |
| Search.SuffixEndpointUndoesPath | lib-landns/rest_api.go:117-132 | asked for the path of a name, the endpoint searches for that name |
| Search.SuffixEndpointTakesNames | lib-landns/rest_api.go:117-132 | asked for a dotted name, the endpoint searches for that name |
| Search.PathPrefixIsSuffix | lib-landns/records.go:54-61 | one path is a prefix of another at a label boundary exactly when the labels are in suffix relation |
| Search.EtcdFinds | lib-landns/etcd_resolver.go:291-302 | exactly which names the raw prefix search finds: the last label need only begin like the suffix's |
| Search.EtcdNeverMisses | lib-landns/etcd_resolver.go:291-302 | no name equal to or below the suffix is missed |
| Search.SqliteFinds | lib-landns/sqlite_resolver.go:269-290 | exactly which names the search finds: those properly below, up to case, and the one spelled like the escaped suffix |
| Search.SqliteFindsSuffixItself | lib-landns/sqlite_resolver.go:273-291 | the suffix itself is found exactly when it holds no character special to LIKE |
| Search.SqliteNeverMissesBelow | lib-landns/sqlite_resolver.go:285-291 | no name properly below the suffix is missed |
| DynamicText.ToString | lib-landns/dynamic_resolver.go:30-53 | the list of annotations built step by step gives the line of the record |
| DynamicText.LineFields | lib-landns/dynamic_resolver.go:30-53 | how a dynamic record is printed: semicolon, record, ID and Volatile |
| DynamicText.MarshalSet | lib-landns/dynamic_resolver.go:165-177 | one line for each record and a newline at the end |
| DynamicText.Receiver.UnmarshalAnnotation | lib-landns/dynamic_resolver.go:55-82 | the receiver's ID and flag after the annotations up to the first that is not valid |
| DynamicText.Receiver.UnmarshalText | lib-landns/dynamic_resolver.go:84-109 | the receiver after a line and how it ends, with errors and the panic of the record parser: what was set stays set, and Volatile is reset only by annotations |
| DynamicText.UnmarshalSet | lib-landns/dynamic_resolver.go:135-163 | the records of the lines, half-filled ones of lines in error included, and the numbers of those lines; or that a line panics |
| DynamicText.ErrorsAreNumbers | lib-landns/dynamic_resolver.go:144-157 | the errors are the numbers of the bad lines, counted from one |
| DynamicText.StaysVolatile | lib-landns/dynamic_resolver.go:84-109 | a line without annotations forgets the number of the receiver and keeps its Volatile flag |
| DynamicText.AnnotationsRead | lib-landns/dynamic_resolver.go:55-82 | reading printed annotations sets the ID and the flag they were printed from, whatever stood there before |
| DynamicText.AnnotationCases | lib-landns/dynamic_resolver.go:55-82 | annotations are read in any case, those with other names are passed over, and wrong values are errors |
| DynamicText.LineRoundTrip | lib-landns/dynamic_resolver.go:30-109 | a printed record is read back by a fresh receiver with its ID and both flags, for every record parser that inverts printing |
| DynamicText.SetRoundTrip | lib-landns/dynamic_resolver.go:130-177 | unmarshalling a marshalled set gives the same records, IDs and flags in their order, for every such parser |
| DynamicText.NoiseMeaning | lib-landns/dynamic_resolver.go:144-157 | a line is passed over exactly when it is white space throughout, or starts with a semicolon and is refused with an error behind it |
| DynamicText.NoiseIsInvisible | lib-landns/dynamic_resolver.go:144-157 | such lines change nothing, wherever they stand |
| DynamicText.SetPanics | lib-landns/dynamic_resolver.go:144-157 | reading a set panics exactly when reading one of its lines does |
| DynamicText.PanicMeaning | lib-landns/dynamic_resolver.go:91-107 | a line panics exactly when its annotations are valid, if it has any, and it is a comment with nothing in it, sets a default for later lines, or is a TXT record without a text |
| DynamicText.SemicolonPanics | lib-landns/records.go:75-83 | a semicolon alone on a line does, whatever stands before and behind it |
| Semicolons.TextIsClean | lib-landns/dynamic_resolver.go:97 | only the text of a TXT record can hold a semicolon, and no record holds a newline |
| Semicolons.CutTextIsBroken | lib-landns/dynamic_resolver.go:97-107 | what the first semicolon leaves of such a record, whatever follows it, is no record |
| DynamicText.LineRoundTripIff | lib-landns/dynamic_resolver.go:97-108 | a printed record is read back exactly when it is not a TXT record with a semicolon |
| DynamicText.ReadStopsAtSemicolon | lib-landns/dynamic_resolver.go:97-108 | such a record is an error when enabled and nothing at all when disabled |
| DynamicText.SetRoundTripIff | lib-landns/dynamic_resolver.go:130-177 | a set survives printing and parsing exactly when no TXT record in it holds a semicolon |
| RestApi.FlipAll | lib-landns/rest_api.go:192-194 | every line of the array is flipped in place and nothing else of it changes |
| RestApi.FlipExchangesCounts | lib-landns/rest_api.go:164-174 | the counts are those of the disabled lines and of the others, and a flip exchanges them |
| RestApi.ParseRecordSet | lib-landns/rest_api.go:29-46 | the body with its placeholders filled in, parsed; refused exactly when a line is in error and none panics; every record is well formed |
| RestApi.BodyPanics | lib-landns/rest_api.go:29-46 | reading a body panics exactly when one of its lines is of the kinds that do |
| RestApi.DynamicAPI.SetRecords | lib-landns/rest_api.go:159-175 | over SQLite: the batch goes to the store and the answer counts its enabled and its disabled lines; when the transaction fails, the answer is an internal server error and nothing changes |
| Placeholders.NothingFilled | lib-landns/rest_api.go:29-40 | a body without the three placeholders is parsed as it stands |
| Placeholders.PlacesFilled | lib-landns/rest_api.go:29-40 | every $ADDR becomes the address of the client and every $TTL 3600, and nothing else changes |
| Placeholders.DollarsFilled | lib-landns/rest_api.go:29-40 | every $$ that no other placeholder follows becomes a dollar sign |
| RestApi.DynamicAPI.PostRecords | lib-landns/rest_api.go:177-184 | over SQLite: what is parsed is applied and counted; a body that panics, a bad body or a failing transaction changes nothing, and the answer, or its lack, says which |
| RestApi.DynamicAPI.DeleteRecords | lib-landns/rest_api.go:186-197 | over SQLite: the flipped body is applied and counted; a body that panics, a bad body or a failing transaction changes nothing, and the answer, or its lack, says which |
| RestApi.FlippedBatch | lib-landns/rest_api.go:186-197 | DELETE of enabled lines undoes their puts one by one |
| RestApi.PostThenDelete | lib-landns/rest_api.go:177-197 | after POST and DELETE of one body no row it names is left, whatever TTLs it gives, and every other row is as it was |
| RestApi.PostAndDelete | lib-landns/rest_api.go:177-197 | the same for the two requests on the API, from the text of the body on, with the texts of their answers |
| EtcdApi.DynamicAPI.SetRecords | lib-landns/rest_api.go:159-175 | over etcd: a failed batch is answered with an internal server error and leaves what its earlier lines did, and perhaps half of the line that failed |
| EtcdApi.DynamicAPI.PostRecords | lib-landns/rest_api.go:177-184 | over etcd: what is parsed is applied line by line; a body that panics or is bad never reaches the store |
| EtcdApi.DynamicAPI.DeleteRecords | lib-landns/rest_api.go:186-197 | over etcd: the same for the flipped body |
| EtcdApi.PostAndDelete | lib-landns/rest_api.go:177-197 | POST and DELETE of one permanent body over a permanent, legible etcd store leave no row it names and every other row as it was |
| RestApi.ListingIsParsed | lib-landns/rest_api.go:29-46 | a listing sent back is understood exactly when no TXT record in it holds a semicolon, and then as the records it lists |
| RestApi.CommentedListingIsFlipped | lib-landns/rest_api.go:186-197 | a listing with its lines commented out is the body of the flipped records, so POST of it is DELETE of the listing |
| Listings.ListingDrops | lib-landns/sqlite_resolver.go:137-166 | the lines of a full listing, flipped, leave exactly the rows that are not shown or are shown with another TTL than the stored one, less the reverse rows that the line of an address drops |
| Listings.BatchKeepsNsRows | lib-landns/records.go:220-222 | every batch stores NS rows with TTL 0 |
| Listings.NoneSurvives | lib-landns/sqlite_resolver.go:137-166 | of a permanent store no row is left |
| Listings.DeleteListing | lib-landns/rest_api.go:90-197 | GET and DELETE of its answer: accepted exactly when no TXT row that is shown holds a semicolon; then exactly those rows are left, else nothing has changed |
| JsClient.MatchRun | client/js-client/src/index.ts:12 | a greedy class before a character outside it takes its whole run when the rest then matches |
| JsClient.WellFormedFields | client/js-client/src/index.ts:184-190 | which fields let a record stand on one line that trimming and filtering leave alone |
| JsClient.ParseText | client/js-client/src/index.ts:11-181 | Record.parse of a printed record, with anything after a blank behind it, gives that record for all six classes |
| JsClient.TrimRemoves | client/js-client/src/index.ts:184-190 | trimming removes the white space at both ends, the byte order mark included and U+0085 not |
| JsClient.RoundTrip | client/js-client/src/index.ts:184-190 | parseRecords of the printed records, one on a line, returns the same list |
| JsClient.SameText | client/js-client/src/index.ts:55-57 | server and client print the records both have alike |
| JsClient.NsUnread | client/js-client/src/index.ts:12-15 | no line of an NS record matches, whatever annotations follow |
| JsClient.ParseBody | client/js-client/src/index.ts:11-31 | an annotated line of the server is read with the fields the server printed; NS and MX lines are exceptions |
| JsClient.ListingIsRead | client/js-client/src/index.ts:184-190 | a listing is read exactly when it shows no enabled NS or MX record, and then the enabled records in their order |
| LocalCache.LocalCache.Add | lib-landns/local_cache.go:108-132 | a record with a TTL is appended under its own name and type, no other list changes |
| LocalCache.LocalCache.ResolveFromUpstream | lib-landns/local_cache.go:134-143 | every record is filed and written in the order of the answer, until it ends or fails |
| LocalCache.LocalCache.ResolveFromCache | lib-landns/local_cache.go:145-162 | the list is served with the time left, and the headers are rewritten in place |
| LocalCache.LocalCache.Resolve | lib-landns/local_cache.go:164-182 | a hit only if every record of the set is unexpired; otherwise the set is dropped and the upstream asked |
| LocalCache.LocalCache.ManageTask | lib-landns/local_cache.go:66-93 | exactly the sets with an expired record are deleted; the delay is exactly the least of ten seconds and the lives seen, positive, and no longer than any kept record's |
| LocalCache.SweptMeaning | lib-landns/local_cache.go:66-93 | a sweep keeps exactly the sets of which every record is within its time |
| LocalCache.ListAfter | lib-landns/local_cache.go:108-143 | filing any answer makes every list grow by the records of the answer with a TTL, in order, that belong there |
| LocalCache.HonestFill | lib-landns/local_cache.go:108-143 | an answer leaves exactly its positive-TTL records, in order, under the key asked for and changes no other list, exactly when those are of the asked name and type |
| LocalCache.CacheAgreesWithUpstream | lib-landns/local_cache.go:66-182 | over every run each cached list is the answer that filled it, and holds only records of its key |
| LocalCache.HitServesOrigin | lib-landns/local_cache.go:145-162 | a hit serves the records of that answer with the time left, whatever earlier hits wrote into the headers |
| LocalCache.ServedTTLAges | lib-landns/records.go:504-517 | a served TTL is the original one when the record comes in, at most that later, within half a second of the time left, never rises, and fits 64 bits in nanoseconds |
| LocalCache.HitWithinTTL | lib-landns/local_cache.go:164-182 | after a miss the same question is a hit exactly as long as every record that was kept is within its TTL |
| LocalCache.SweeperIsInvisible | lib-landns/local_cache.go:66-93 | wherever the sweeper runs, every reply is the same as without it exactly when the cache never answers from a list begun after the sweeper took the one before it, without the upstream resolver asked in between; then the upstream calls are the same too |
| LocalCache.HonestUpstreamNeverRevives | lib-landns/local_cache.go:118-127 | that never happens with an upstream of whose answers only records of the asked name and type are kept |
| LocalCache.OtherNamesPileUp | lib-landns/local_cache.go:118-127 | on every miss each other list grows by the records of its name and type in the answer; none does exactly when the answer is honest |
| LockProtocol.EntriesChangeUnderMutex | lib-landns/local_cache.go:66-182 | in every interleaving the channel holds at most 100, one goroutine is inside the mutex, and only it changes the entries |
| LockProtocol.StuckIffDeadlocked | lib-landns/local_cache.go:95-132 | no step is possible exactly when the channel is full, a resolver waits inside add, and the manager waits for the mutex |
| LockProtocol.RoomMeansProgress | lib-landns/local_cache.go:95-132 | below 100 pending wake-ups somebody can always go on |
| LockProtocol.StuckForever | lib-landns/local_cache.go:95-132 | once stuck, always stuck |
| LockProtocol.NoDeadlockWithinCapacity | lib-landns/local_cache.go:27 | no interleaving of questions that add up to 100 records gets stuck |
| LockProtocol.DeadlockThreshold | lib-landns/local_cache.go:27 | any questions at all, however many and however small, have an interleaving that stops the cache exactly when they ask to add more than 100 records together |
| Resolvers.Add | lib-landns/message_types.go:84-97 | every hook's flag is set and the builder gets the record last |
| Resolvers.SetNoAuthoritative | lib-landns/message_types.go:103-105 | only the builder's flag changes, through any number of hooks |
| Resolvers.Resolve | lib-landns/resolver.go:22-83 | the writer, the flags of all hooks and the calls of all leaves are what the tree's outcome says |
| Resolvers.ResolveAll | lib-landns/resolver.go:22-29 | the same for a list of children all of which are asked |
| Resolvers.ResolveFirst | lib-landns/resolver.go:62-83 | the same for a list asked until one has written; the hook of its own is not seen outside |
| Resolvers.AllConcatenates | lib-landns/resolver.go:22-29 | without errors a ResolverSet writes its children's outputs one after the other and asks them all |
| Resolvers.FailureEnds | lib-landns/resolver.go:22-29 | a child that fails ends a ResolverSet: what stands behind it is not asked |
| Resolvers.FirstTakesFirstWriter | lib-landns/resolver.go:62-83 | without errors an AlternateResolver writes what the first child that writes anything writes; later children are never asked |
| Resolvers.LocalAnswerShields | lib-landns/resolver.go:73-81 | a local resolver anywhere in the list that writes when nothing before it did: the reply holds its records and no others, and nothing behind it is called |
| Resolvers.LeafOutputsAreCandid | lib-landns/forward_resolver.go:53-62 | the outputs of local data, forwarder and cache hits drop authority exactly when they hold a foreign record |
| Resolvers.LeafOutputsWrite | lib-landns/forward_resolver.go:53-62 | those outputs write their records in order |
| Resolvers.TreesAreCandid | lib-landns/message_types.go:138-140 | so does every nesting of them |
| Resolvers.Answer | lib-landns/resolver.go:22-83 | the reply is authoritative exactly when no record came from a cache hit or the forwarder |
| SimpleResolver.NewSimpleResolver | lib-landns/simple_resolver.go:14-29 | for every question the nested index holds the order-keeping filter of the input list, and no other type |
| SimpleResolver.Resolve | lib-landns/simple_resolver.go:44-56 | the records of the question are written, in order, through any hooks |
| SimpleResolver.MakeRecords | lib-landns/simple_resolver.go:118-161 | the loops over a part of a configuration make each record exactly as often as a value of a name makes it |
| SimpleResolver.CheckServices | lib-landns/simple_resolver.go:153-158 | services are refused exactly when one of them is not valid |
| SimpleResolver.FromConfig | lib-landns/simple_resolver.go:103-165 | an error exactly when a service is not valid; else every record is in the answer to its question exactly as often as the configuration gives it |
| SimpleResolver.ConfiguredRecords | lib-landns/simple_resolver.go:82-150 | which is once for each time an address, target or text is given to the name, for the reverse record of an address as often as for the address |
| SimpleResolver.ConfiguredServices | lib-landns/config.go:67-77 | an SRV record is answered once for each service it stands for, with its priority, weight, port and target under its service, protocol and name |

## Left out

- Real SQLite, etcd, gRPC and leases: a table of rows and a map of keys with the statements the code uses. A lease that
  ends is a key that disappears; the model keeps the key and its expiry, which readers check.
- Concurrent writers and errors of single statements: single writer, and a batch in SQLite fails as a whole, when it is
  committed. Errors of etcd are those of its values, not of its connection.
- One clock reading for each query; the code reads the clock once in SQL and once for each row.
- Times are whole nanoseconds and seconds are rounded exactly; the code rounds a floating-point number of seconds.
- IDs and Unix times in etcd values and keys are unbounded integers; the code stops at 64 bits.
- `dns.NewRR`: records are read in the forms that are printed (names without escapes, one quoted string for TXT), with
  names that lack the final dot, lines that lack the TTL, and the lines that make it return nothing. Tabs and carriage
  returns inside a record, parentheses, comments, an omitted owner or class, lower-case types, TTLs with units, limits on
  names and their labels, the escapes of master files, `$INCLUDE`, `$GENERATE`, an `$ORIGIN` without a dot or named like a
  type, and records without data other than TXT, which the code takes with an empty address or target, are not modelled.
- Records.ParsedWellFormed: of the parser so described.
- Addresses that are no IP addresses, for which `dns.ReverseAddr` and `ToRR` fail; names are compared as they are written.
- CompiledGlobs.CompiledMeansGlob: for globs and names without newlines; that Go refuses expressions of a very great
  total size is not modelled.
- Expiry.SweeperChangesNoRow: the other direction does not hold for drops with IDs, which can take the row in one run only
  and let the numbers meet again.
- Backends.SideBySide: batches are permanent and without IDs; the other lemmas of `Backends` say what happens with IDs and
  volatile lines.
- Sqlite.SqliteResolver.Resolve: the rows are answered in the order of their numbers; SQL leaves the order open, and the
  contract only says each once.
- LocalCache.LocalCache.Add: the two-level map of entries is one map by type and name; types without a map, for which the
  code would panic, do not occur among records, and records convert. That add waits for room on the wake-up channel is the
  subject of `LockProtocol`.
- LocalCache.LocalCache.ResolveFromUpstream: an error comes from the upstream, not from the response writer.
- The removal of duplicate records when the message is built.
- SimpleResolver.FromConfig: names are checked by a given predicate, and every address has a reverse name.
- JsClient.RoundTrip: asks for safe integers; larger ones are rounded by `parseInt` as the language does, but how
  `toString` prints them is not modelled.
- JsClient.ListingIsRead: names that start with a byte order mark, which the client trims and the server does not, are
  left out.
- Listings.DeleteListing: rows whose text holds `$ADDR`, `$TTL` or `$$` are left out, because parseRecordSet fills those
  in.
- RestApi.PostThenDelete: lines that carry an ID or are disabled are left out; DELETE of a disabled line adds it.
- LocalCache.HitServesOrigin: the clock is past the first second of 1970, as for Pairing.RunKeepsPairs; at Unix time 0
  the code takes an expiry for none.
- LocalCache.SweeperIsInvisible: the clock does not run backwards.
- The checks of the glob endpoint on its pattern, and the endpoints by number, which hand on what the stores answer.
- The Redis cache, the network side of the forwarder, metrics, logging, HTTP routing, YAML decoding, flags, `Close`, and
  the getters and `Validate` methods of the record types.
