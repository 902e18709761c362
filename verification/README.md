# Verified model of ech-keymgr's key rotation

ech-keymgr keeps the Encrypted Client Hello keys of a web site fresh without downtime. It generates HPKE key pairs, stores
each in a `.ech` file of a key directory, makes the server load them, and publishes the matching ECHConfigList in the `ech`
parameter of the site's HTTPS records. This project models that logic in Dafny, from the bytes of one config up to every
run of the whole system, and proves what the tool promises about it.

## What is modelled

* **Wire format** (`EchConfig`): ECHConfig and ECHConfigList of section 4 of RFC 9849, encoder and decoder loops over
  length-prefixed bytes, unknown versions included. Go's decoder fills its receiver, and appends to what is already in it.
* **Base64** (`Base64`): section 4 of RFC 4648 with padding, and the tolerant decoder of Go's standard library.
* **Record text** (`Svcb`, `SvcParams`, `SvcbGrammar`, `Quotes`): the presentation form of section 2.1 of RFC 9460 over
  printable ASCII and tabs; the tokenizer, the parser, the `%q` printer, and the parameter editor as a class; and a grammar
  that knows neither scanner nor printer.
* **Key files** (`PemFile`): a file is its sequence of typed blocks. A server can serve a file's config if the private key
  beside it fits, that is, if its public half is the config's public key.
* **The published set** (`HttpsRecords`): what a client finds in a record, and what a publish makes of a record set.
* **The protocol** (`Protocol`): a transition system over the key directory, temporary files, the server's loaded keys, the
  published records, client caches with expiry, and a clock. Steps: time passes, a client reads and caches, the server
  loads, files and index change, records change. `Inv` is its invariant.
* **The machine** (`Machine`): every system call the tool makes, as a method of the class `Host`. Each may fail, may crash
  the process before or after its effect, and lets the environment act any number of times first. The ghost `trace` records
  every state passed through. A *calm* machine is one on which no call fails.
* **The key store** (`AtomicFile`, `KeyIndex`, `Keystore`): the class `Store` with its index in an array, rewritten in place
  and persisted as a whole by an atomic file replacement.
* **The rotation** (`ConfigIds`, `Rotation`, `RotatorSteps`, `Rotator`): R1 to R9 as methods on the store and the machine.
* **The results** (`Convergence`, `Commands`, `StoreBound`, `GracePeriod`): what a completed cycle leaves, what holds over
  every sequence of `init`, `rotate`, `keygen` and outside events, how large the store grows, and why the grace period must
  cover the time to live.
* **The verifier** (`Verify`), **Cloudflare** (`Cloudflare`, its create-then-delete Put one API call at a time, on the same
  machine) and **owner names** (`Names`).

The main results are `Commands.Operate` (no downtime over everything that can happen), `Rotator.Rotate` and
`Convergence.CycleDelivers` (safety under every failure, and convergence), `Verify.RotatedIsVerified`,
`Verify.FindingsMean`, `Cloudflare.Zone.PutHTTPSRDATA`, `EchConfig.CanonicalDecoding`, `SvcbGrammar.ParseAcceptsExactly`,
`SvcbGrammar.PublishedText`, `HttpsRecords.PublishSets` and `StoreBound.StoreIsBounded`.

## Assumptions

* The clock never goes back, and one process at a time works on a key directory.
* The grace period is at least the time to live of the records, one value per run (`Settings.gracePeriod`, `Sys.ttl`).
  The code does not check this, and the condition is exact: `GracePeriod.GraceIsExact` has the deadlines of R7 protect every
  cached copy in every run if and only if it holds, and `GracePeriod.ShortGraceHappens` loses a key in use for every shorter
  grace period.
* A reload that reports success has loaded every `.ech` file and dropped every other key; a restart loads every `.ech` file.
* No published value contains a quote (`QuotelessSet`); only a bare value could. Values with backslashes or tabs are
  covered everywhere, and grow as `HttpsRecords.PublishSets`, `SvcParams.BackslashGrowth` and `SvcParams.TabGrowth` say.
  With a quote the printer and the parser disagree (`Svcb.QuotesDecide`). One before the first ech can make a publish fail
  its purpose (`Quotes.QuoteMisleads`); one behind it at worst makes the record unreadable
  (`Quotes.QuotesBehindEchAdvertise`).
* Nobody else writes the records or the key directory.
* Rename is atomic, and what is written stays.
* A listing of Cloudflare records fits one page of 100, where the exact new set is claimed.
* Time is a number of nanoseconds, and Go's zero time is 0. Private keys and random bytes are arbitrary inputs. The public
  half of an X25519 private key is some fixed function of it, `PemFile.PublicOf`, about which nothing is assumed.

## Where the code and its documentation differ

* R5 waits for the settle delay only (internal/rotator/rotator.go:111), not for max(TTL, settle_delay) as the documentation
  says (docs/architecture.md:88). In every completed cycle the settle delay lies between the marking and the setting of the
  deadline (`Convergence.CycleDelivers`); safety does not rest on it.
* R7 does not wait for the grace period (docs/architecture.md:90); it stores a deadline. R8 does not keep `keep_count` files
  (docs/architecture.md:91); it removes what is due.
* Of the failure semantics (internal/rotator/doc.go:36-47), `Rotator.EndedAt`, part of the contract of `Rotator.Rotate`,
  states what each stage leaves. "R2 fails, no .ech file persisted" holds exactly when the undo could remove the new file
  or none was placed. "R4 fails, DNS unchanged" holds for a failure up to the DNS write if a failed write has had no
  effect, and never for a failure of the marking that follows it (internal/rotator/rotator.go:105-107): then the overlap
  list is published. "R6 fails, DNS still has the larger list" holds if a failed write has had no effect.
* The commands' `relName` is said to have the same logic as the rotator's (cmd/ech-keymgr/helpers.go:141-143); it removes
  one trailing dot where the other removes all. `Names.SameRelName` is the exact condition for equal results.
* Cloudflare's Put creates first and deletes afterwards; its comment says the opposite
  (providers/cloudflare/cloudflare.go:109-115).
* `Store.Add` and `Store.SetState` keep the changed index in memory when the persist fails.

## Model

| member | source | states |
|---|---|---|
| EchConfig.MarshalBinary | internal/echconfig/echconfig.go:84-116 | succeeds exactly when every length prefix can hold its child and keys, suites and name are non-empty, and then yields, byte for byte, the layout of the RFC: 0xfe0d, the length, and every field in its place, high byte first |
| EchConfig.EncodeSuites | internal/echconfig/echconfig.go:96-101 | the loop emits the suites in order |
| EchConfig.EncodeExtensions | internal/echconfig/echconfig.go:106-113 | the loop emits the extensions in order and fails exactly when one is too long |
| EchConfig.DecodeSuites | internal/echconfig/echconfig.go:162-168 | consuming the cursor appends to the receiver's suites exactly those that the bytes encode |
| EchConfig.DecodeExtensions | internal/echconfig/echconfig.go:186-194 | the same for extensions, including the failing inputs |
| EchConfig.Receiver.ParseBody | internal/echconfig/echconfig.go:142-199 | fills the receiver's fields from the cursor, appending to the suites and extensions already in it; fails on exactly the malformed bodies, and then holds every field up to the first malformed one |
| EchConfig.Receiver.UnmarshalBinary | internal/echconfig/echconfig.go:121-138 | decodes one entry into the receiver; foreign versions and trailing bytes are rejected before the receiver is touched |
| EchConfig.FilledAccepts | internal/echconfig/echconfig.go:142-199 | an accepted body fills every field, and no body, accepted or not, takes suites or extensions away from the receiver |
| EchConfig.ConfigRoundTrip | internal/echconfig/echconfig.go:84-138 | decoding an encoded config into a receiver returns the config exactly when the receiver had no suites and no extensions |
| EchConfig.BytesOfParseBody | internal/echconfig/echconfig.go:142-212 | every accepted body is the one encoding of what it decodes to |
| EchConfig.MarshalList | internal/echconfig/echconfig.go:220-252 | succeeds exactly on encodable lists and emits the length, the known entries and then the unknown ones, each as laid out by the RFC |
| EchConfig.UnmarshalList | internal/echconfig/echconfig.go:258-295 | the cursor loop computes the decoded list, with every error case |
| EchConfig.ListRoundTrip | internal/echconfig/echconfig.go:220-295 | every list that marshals, without an unknown entry posing as known, is decoded to exactly itself |
| EchConfig.ConfigAsLaidOut | internal/echconfig/echconfig.go:84-116 | the encoder against a flat layout that shares no function with it: version bytes fe 0d, lengths, field order and byte order |
| EchConfig.ListAsLaidOut | internal/echconfig/echconfig.go:220-252 | the same for whole lists, unknown versions included |
| EchConfig.LayoutIsDecoded | internal/echconfig/echconfig.go:258-295 | every list laid out like that is decoded to itself; exactly version 0xfe0d is known |
| EchConfig.ExampleOnTheWire | internal/echconfig/echconfig.go:84-295 | the 42 bytes of a list in which no two fields are alike, encoded and decoded |
| EchConfig.CanonicalDecoding | internal/echconfig/echconfig.go:220-295 | what is accepted with non-empty keys re-encodes to the same length, to the known-then-unknown reordering of its entries, identically exactly when no unknown entry stood before a known one, and a second pass changes nothing |
| EchConfig.EmptyKeyDoesNotReencode | internal/echconfig/echconfig.go:201-212 | a decoded list can be encoded again exactly when no public key in it is empty, which the decoder lets through |
| EchConfig.KnownFirstIffReordered | internal/echconfig/echconfig.go:231-249 | the stable reordering is the identity exactly on lists that already have the known entries first |
| EchConfig.OverlapListFits | internal/echconfig/echconfig.go:84-116 | a list of n X25519 configs with s suites and a p-byte name marshals exactly when n, s >= 1, 1 <= p <= 255 and n*(47+4s+p) <= 65535 |
| EchConfig.FirstPartFits | internal/rotator/rotator.go:237-239 | if the overlap list fits, so does the list of its first configs |
| Base64.RoundTrip | internal/rotator/rotator.go:248 | the decoder inverts the encoder on every byte string |
| Base64.Alphabet | internal/rotator/rotator.go:248 | the 64 digits, one by one |
| Base64.NothingElse | internal/verify/verify.go:90 | no other character is a digit |
| Base64.EncodeIsGrouped | internal/rotator/rotator.go:248 | the encoder follows the description of RFC 4648: 24-bit groups in four digits, the last filled up with zeros and padded |
| Base64.AcceptedExactly | internal/verify/verify.go:90 | exactly which texts decode: whole groups of four, digits and then at most two padding characters |
| Base64.GroupBits | internal/verify/verify.go:90 | the bytes of a decoded group; surplus bits before the padding are ignored |
| Base64.BreaksIgnored | internal/verify/verify.go:90 | line breaks change nothing, wherever they stand |
| Svcb.TextRoundTrip | pkg/svcb/svcb.go:113-186 | parsing a printed record returns it, for well-formed tokens and values without quotes and backslashes |
| Svcb.ParsePrinted | pkg/svcb/svcb.go:113-186 | in general printing and re-parsing escapes every value once more and changes nothing else |
| Svcb.QuotesDecide | pkg/svcb/svcb.go:169-252 | that law holds exactly when no value contains a quote, as a bare value may |
| Svcb.ParsedIsWellFormed | pkg/svcb/svcb.go:113-161 | whatever Parse accepts over the alphabet has well-formed tokens, and values over the alphabet |
| Svcb.ReparseIsIdentity | pkg/svcb/svcb.go:113-186 | for every accepted text, printing and re-parsing gives the same record exactly when no value needs escaping |
| Svcb.NextParam | pkg/svcb/svcb.go:221-252 | every accepted parameter strictly shortens the rest, so the loop ends, and has a key |
| Svcb.Uint16OfDecimal | pkg/svcb/svcb.go:254-269 | reading back the printed priority returns it |
| SvcbGrammar.ParseAcceptsExactly | pkg/svcb/svcb.go:113-161 | Parse accepts exactly the texts of a grammar (white space, a decimal number up to 65535, blanks, a target, and bare, assigned and quoted parameters), and reads each as it is spelled; nothing behind the target of an alias matters |
| SvcbGrammar.ParsedIsSpelled | pkg/svcb/svcb.go:141-159 | every accepted parameter text is one of the grammar |
| SvcbGrammar.SpelledIsParsed | pkg/svcb/svcb.go:221-252 | every parameter text of the grammar is accepted, and each item is read whole |
| SvcbGrammar.NumberIsRead | pkg/svcb/svcb.go:254-269 | a number is read exactly if it is made of digits and fits 16 bits, as its value |
| SvcbGrammar.CanonicalFixpoint | pkg/svcb/svcb.go:113-186 | every canonical text (single blanks, no leading zeros, bare keys for empty values, quotes around all others, nothing to escape) is parsed and printed back character for character |
| SvcbGrammar.EscapeIsQuoting | pkg/svcb/svcb.go:183 | what %q writes is read back as the value by the rules for Go's quoted strings, whatever the value |
| SvcbGrammar.PublishedText | internal/rotator/rotator.go:260-277 | a publish of a canonical text replaces its first ech parameter, or adds one at the end, and changes no other character |
| SvcbGrammar.KeylessExample | pkg/svcb/svcb_test.go:60-72 | `1 . no-default-alpn alpn="h3"` is parsed, printed back as it is, and published with the ech behind it |
| SvcParams.ReadUint16 | pkg/svcb/svcb.go:254-269 | the digit loop, with its overflow and empty cases |
| SvcParams.Parse | pkg/svcb/svcb.go:113-161 | the parsing loop computes the parsed record or the error |
| SvcParams.Format | pkg/svcb/svcb.go:169-186 | the printing loop computes the text |
| SvcParams.SetECH | pkg/svcb/svcb.go:194-202 | refuses AliasMode, otherwise changes a copy and leaves the base alone |
| SvcParams.SetEchFrame | pkg/svcb/svcb.go:194-202 | afterwards GetECH finds the value; priority, target and every parameter but the first ech are what and where they were |
| SvcParams.RecordEditor.SetParam | pkg/svcb/svcb.go:79-87 | replaces the first parameter with the key in place, or appends one |
| SvcParams.RecordEditor.DeleteParam | pkg/svcb/svcb.go:90-98 | removes every parameter with the key and keeps the others in order |
| SvcParams.DeletedExactly | pkg/svcb/svcb.go:90-98 | a deletion takes out each parameter with the key and leaves every other where it stood among the rest |
| SvcParams.GetExactly | pkg/svcb/svcb.go:67-74 | the value of the first parameter with the key, or nothing exactly when there is none |
| SvcParams.PublishMany | pkg/svcb/svcb.go:169-202 | one ServiceMode record set, printed and parsed n times: only the first ech is new, and every other value has been escaped n times |
| HttpsRecords.PublishSets | internal/rotator/rotator.go:247-281 | any number of publishes of any readable quote-free set: number, order, aliases, priorities, targets, and the place and key of every parameter are unchanged, the last list is in every ServiceMode record, and every other value has been escaped once per publish |
| HttpsRecords.RewrittenClean | internal/rotator/rotator.go:247-281 | on a record that needs no escaping, that is: nothing changes but the first ech |
| HttpsRecords.UnreadableStops | internal/rotator/rotator.go:260-264 | one record that cannot be parsed stops every publish of the set |
| SvcParams.BackslashGrowth | pkg/svcb/svcb.go:183 | a printable quote-free value with k backslashes has k*2^n after n passes |
| SvcParams.TabGrowth | pkg/svcb/svcb.go:183 | a quote-free value with k backslashes and t tabs has (2k+t)*2^n backslashes after n+1 passes |
| SvcParams.PublishKeepsValue | pkg/svcb/svcb.go:183 | passes leave a quote-free value alone exactly when it has no backslash and no tab |
| PemFile.Parse | internal/pemfile/pemfile.go:72-122 | the block loop computes the parsed file, its public key derived from the private one, with missing, duplicate and short blocks as errors |
| PemFile.ParsesExactly | internal/pemfile/pemfile.go:72-122 | exactly which files parse: one block of each kind, the private key in 32 bytes; and what they hold |
| PemFile.KindsByName | internal/pemfile/pemfile.go:84-99 | the two kinds of blocks by name, in any case of letters |
| PemFile.OwnKinds | internal/pemfile/pemfile.go:42-64 | Marshal writes those two blocks, the key first, for X25519 and a non-empty list only |
| PemFile.DoubledIsUndone | internal/pemfile/pemfile.go:111-117 | a body that was base64-encoded once more, with white space around it, is decoded once more |
| PemFile.ForeignFileReads | internal/pemfile/pemfile.go:66-122 | so a file with block names in any case and a doubly encoded list reads like one of the tool's own |
| PemFile.OrderIndependent | internal/pemfile/pemfile.go:72-122 | the result does not depend on the order of the two blocks nor on foreign blocks around and between them |
| PemFile.KnownListIsNotBase64 | internal/pemfile/pemfile.go:223-238 | a marshalled list that begins with a known config never looks like base64, so it is never decoded a second time |
| PemFile.StoredKeyReadsBack | internal/pemfile/pemfile.go:42-122 | a stored key's file parses to its private key, the public half of it, and its list, and yields the stored config; a server can serve it exactly when the config is for that public half |
| PemFile.FittingMeans | internal/pemfile/pemfile.go:165-199 | what serving a file takes: a 32-byte private key whose public half is in the first config of its list |
| PemFile.VerifyEchConfigList | internal/pemfile/pemfile.go:243-257 | accepts exactly files whose list decodes and names the public key |
| PemFile.StoredKeyVerifies | internal/pemfile/pemfile.go:243-257 | a stored file passes that check exactly when its config was built for the stored private key |
| HttpsRecords.PatchedAdvertises | internal/rotator/rotator.go:260-277 | a patched quote-free ServiceMode record carries exactly the published configs and is otherwise what it was but for escapes, and entirely so if it needs none; an alias carries none |
| Quotes.QuoteMisleads | pkg/svcb/svcb.go:169-252 | with a quote in a bare value this fails: a publish of such a record, which carried nothing, makes clients read a list that another of its values mentions |
| Quotes.QuotesBehindEchAdvertise | pkg/svcb/svcb.go:169-252 | with quotes only behind the first ech, a published record offers clients exactly the published configs, or cannot be read and offers none |
| HttpsRecords.PatchedSetAdvertises | internal/rotator/rotator.go:260-277 | the same for whole sets, record by record, with number, order and modes kept |
| Protocol.StepKeepsInv | docs/architecture.md:98-108 | every step of the tool, of the server, of clients and of time keeps the invariant |
| Protocol.RunKeepsInv | docs/architecture.md:98-108 | the invariant holds in every state of every run |
| Protocol.NoDowntime | docs/architecture.md:100-103 | in every state of every run each config that a client can still use is loaded and has its complete indexed key file, whose private key belongs to it, and a published one is not in grace |
| Protocol.FittingSecret | internal/pemfile/pemfile.go:165-199 | the private key under the name of a served key is there and belongs to its config |
| Protocol.RestartIsSafe | docs/architecture.md:100-107 | a server that restarts at any moment of any run loads every config that a client can still use |
| Protocol.LifecycleStep | internal/keystore/types.go:20-42 | in one step of a run every entry stays or moves forward Current, Previous, Grace, keeps name, id and age, and never changes a deadline, or else it was due and is gone with its id |
| Protocol.GraceIsKept | internal/rotator/rotator.go:126-133 | in every later state a retired key is indexed in grace under the same deadline or that deadline has passed, and until then its file is there |
| Protocol.InsertKeepsEntries | internal/keystore/store.go:165-186 | demoting and appending keeps ids distinct, exactly one entry Current, and every file in place |
| Protocol.PruneKeepsEntries | internal/keystore/store.go:251-277 | dropping the due entries keeps ids distinct, one Current, and every served key |
| Protocol.KeepMembers | internal/keystore/store.go:256-267 | pruning keeps exactly the entries that are not due |
| Protocol.KeepExactly | internal/keystore/store.go:256 | due are exactly the grace entries with a deadline that is not in the future |
| Machine.Host.Env | docs/architecture.md:100-103 | between two calls time, clients and the server act any number of times, leaving directory and records alone |
| Machine.Host.Reload | internal/rotator/rotator.go:300-304 | success means every key file is loaded and no other key |
| Machine.Host.Sleep | internal/rotator/rotator.go:111 | success means that the delay has passed |
| Machine.Host.Rename | internal/keystore/atomic.go:55-58 | the target has its new contents at once or nothing happened, also when the process dies |
| Machine.Host.GenerateKeyPair | internal/hpke/hpke.go:25-47 | a 32-byte key pair whose halves belong together for X25519, an error for every other KEM |
| Machine.Host.GetRRset | pkg/dns/provider.go:45-69 | the published set, or not found when there is none |
| Machine.Host.PutRRset | pkg/dns/provider.go:71-81 | whatever the outcome, every record ever visible is an old or a new one, the set is never empty in between, and success leaves exactly the new set; a failure of a definite provider leaves the old one |
| Machine.Host.RemoveFile | internal/keystore/store.go:257-258 | the file is gone or it is not, at once; a missing file is told apart, and failures are counted |
| AtomicFile.AtomicWrite | internal/keystore/atomic.go:19-71 | in every state passed through and after a crash anywhere, the target holds its old or its complete new contents; an error leaves the old ones; and whatever the outcome, temporary files are as before exactly if no cleanup has failed |
| AtomicFile.Prepare | internal/keystore/atomic.go:26-54 | only a complete temporary file is ever renamed, and a failed one is cleaned up |
| KeyIndex.NewestSorts | internal/keystore/store.go:96-105 | List is a permutation of the index, newest first, stable among entries of one age |
| KeyIndex.KeepSplits | internal/keystore/store.go:251-277 | kept and pruned entries together are all entries; nothing pruned means nothing changed |
| KeyIndex.InsertPermitted | internal/keystore/store.go:165-186 | the index of an Add is one that the protocol permits, however long the environment acts first |
| KeyIndex.RetirePermitted | internal/rotator/rotator.go:127-133 | retiring a previous entry is permitted once its config is unpublished and its cached copies expire by the deadline |
| Keystore.Store.OpenOrInit | internal/keystore/store.go:50-74 | memory becomes what is on disk; a missing index is created empty; a damaged one is an error and stays |
| Keystore.Store.PersistLocked | internal/keystore/store.go:330-338 | the index on disk becomes the one in memory at once, or stays |
| Keystore.Store.List | internal/keystore/store.go:96-105 | a permutation of the index, newest first, in index order among entries of one age; the store is unchanged |
| Keystore.Store.Current | internal/keystore/store.go:110-119 | a Current entry, or none exactly when there is none |
| Keystore.Store.Lookup | internal/keystore/store.go:122-131 | the first entry with the id, or none |
| Keystore.Store.Read | internal/keystore/store.go:134-139 | the entry's file as it is on disk |
| Keystore.Store.SetState | internal/keystore/store.go:199-221 | field by field: the first entry with the id gets the state, the deadline for Grace only, and a publication time that is not zero for Current and Previous only; every other field and entry is unchanged; in memory even when persisting fails |
| Keystore.Store.UniqueName | internal/keystore/store.go:282-294 | keeps an unused name and tags a used one |
| Keystore.Store.DemoteAll | internal/keystore/store.go:166-170 | every Current entry becomes Previous in place, nothing else changes |
| Keystore.Store.Append | internal/keystore/store.go:184 | appends one entry, into spare room or into a grown copy |
| Keystore.Store.Add | internal/keystore/store.go:149-190 | success: file written, old current demoted, new entry last, on disk and in memory; failure: the index on disk as it was, the new file left behind exactly when its removal failed, and memory old, demoted, or with the new entry; every state in between shows one of four images, and the whole is a stretch of a protocol run |
| Keystore.Store.RollBack | internal/keystore/store.go:179-188 | takes only the new file away again, and leaves it exactly when the removal fails |
| Keystore.Store.PruneExpired | internal/keystore/store.go:251-277 | in place: success keeps exactly the entries that are not due, in order, and returns the pruned ids in order; a remove error at i leaves the kept part of the first i entries and the untouched rest; files go before their entries, so only due entries ever lack a file |
| Keystore.Store.SlideDown | internal/keystore/store.go:260-261 | the unread rest of the array moves down behind the kept prefix |
| Keystore.Store.MoveDown | internal/keystore/store.go:267 | one kept entry moves behind the kept prefix and the unread rest stays |
| ConfigIds.Covers | internal/rotator/rotator.go:164-181 | pigeonhole: a set of n numbers below n is all of them |
| ConfigIds.PickConfigId | internal/rotator/rotator.go:159-182 | for all random draws an id that no entry uses; fails for want of ids exactly when all 256 are used, so the last error is unreachable |
| ConfigIds.LeastFree | cmd/ech-keymgr/cmd_keygen.go:60-73 | the least free id; fails exactly when all 256 are used |
| Rotation.PreviousOfNewest | internal/rotator/rotator.go:209-212 | selecting the previous entries from the sorted list is sorting the previous entries |
| Rotation.MarkIdsOnlyMarks | internal/rotator/rotator.go:285-297 | marking changes nothing but publication times, and none in grace |
| Rotation.MarkIdsMarks | internal/rotator/rotator.go:285-297 | entry by entry: the first entry with a listed id carries the clock reading unless it is in grace, and nothing else changes |
| Rotation.CycleMarks | internal/rotator/rotator.go:93-107 | after a cycle the new key and every key that was Current or Previous carry the time of the marking |
| Rotation.RetireListIsRetireAll | internal/rotator/rotator.go:127-133 | the pass over the sorted snapshot, looking up by id, retires exactly the previous entries where they stand |
| Rotation.CyclePointwise | internal/rotator/rotator.go:76-133 | what R2, R4 and R7 make of every single entry |
| Rotation.CycleConverges | internal/rotator/rotator.go:50-149 | from any index: one Current entry, the new one, none Previous, all formerly published keys in grace with one deadline, older deadlines kept, nothing due left and nothing else there |
| RotatorSteps.StoreKey | internal/rotator/rotator.go:186-196 | after R2 the new key is the current entry, last, and its complete file reads back exactly its config and the private key that fits it; after a failed R2 the directory is as it was exactly when the new file could be removed or was never placed |
| RotatorSteps.BuildOverlapList | internal/rotator/rotator.go:205-234 | the new config first, then exactly the configs stored for the previous keys, newest first, and their ids; fails exactly when one cannot be read or the list does not fit, on a calm machine |
| RotatorSteps.FirstConfig | internal/rotator/rotator.go:217-226 | a file yields its first known config or nothing |
| RotatorSteps.PatchSet | internal/rotator/rotator.go:260-277 | the loop patches every record in order and stops at one it cannot parse |
| RotatorSteps.PublishDNS | internal/rotator/rotator.go:247-281 | success leaves exactly the patched set; otherwise each record is an old or a patched one, and all are old after a failure with a definite provider; it stays within the protocol if what it publishes is loaded and held |
| RotatorSteps.MarkInDNS | internal/rotator/rotator.go:285-297 | every listed key outside grace gets the one clock reading as its publication time, entry by entry, through one index write each |
| RotatorSteps.FadingNow | internal/rotator/rotator.go:126 | the timing argument: if the grace period covers the time to live, a deadline set now outlives every cached copy of every other config |
| RotatorSteps.RetireLawful | internal/rotator/rotator.go:127-133 | each index write of R7 is one that the protocol permits |
| RotatorSteps.RetirePrevious | internal/rotator/rotator.go:124-133 | exactly the previous entries enter grace, with one deadline one grace period after one clock reading, within the protocol |
| Rotator.PublishList | internal/rotator/rotator.go:88-101 | after R3 and the publication of R4 everything is loaded and the new config stands first in every ServiceMode record |
| Rotator.PublishOverlap | internal/rotator/rotator.go:88-107 | R3 and R4; a failure before the marking leaves old or overlap records, old ones with a definite provider, and a failure of the marking leaves exactly the overlap records |
| Rotator.PublishSolo | internal/rotator/rotator.go:109-122 | after R5, which takes at least the settle delay, and R6 no other config is published; otherwise each record is an old or a solo one, and old after a failure with a definite provider |
| Rotator.FailedPublicationAdvertises | internal/rotator/doc.go:41-45 | no failed publication takes the configs out of a ServiceMode record, and from R6 on each carries the new key first |
| Rotator.Finish | internal/rotator/rotator.go:135-145 | after R8 and R9 exactly the due entries and their files are gone and the server holds exactly the keys that are left |
| Rotator.NewKey | internal/rotator/rotator.go:55-74 | a key pair whose halves belong together and an unused id, or a failure that has changed nothing |
| Rotator.AddNewKey | internal/rotator/rotator.go:55-86 | R1 and R2: the new key is stored with the private key that fits its config and is current, the previous ones are as they were |
| Rotator.PublishBoth | internal/rotator/rotator.go:88-122 | R3 to R6: both publications, or the stage that failed and exactly what the records then can be |
| Rotator.AddAndPublish | internal/rotator/rotator.go:55-122 | R1 to R6 together |
| Rotator.RetireAndFinish | internal/rotator/rotator.go:124-145 | R7 to R9: the previous keys retired, the due ones pruned, exactly what is left loaded |
| Rotator.PreviousReadable | internal/rotator/rotator.go:209-226 | in a run the files of all previous keys can be read, so R4 cannot fail for want of one |
| Rotator.Rotate | internal/rotator/rotator.go:50-149 | whatever fails or crashes, the run stays within the protocol; success means Completed, the new file's private key fitting the published config, and the server holding exactly the keys in the directory; every failed stage leaves what EndedAt says; with all 256 ids used it fails and touches nothing; on a calm machine it succeeds from every Ready state |
| Convergence.RecordsConverge | internal/rotator/rotator.go:99-122 | after both publications every ServiceMode record carries exactly the new config; number, order, priority, target and the place and key of every parameter are unchanged, and every other value is escaped twice |
| Convergence.CarryingClean | internal/rotator/rotator.go:99-122 | which changes nothing in a record that needs no escaping |
| Convergence.FilesConverge | internal/rotator/rotator.go:76-140 | the new key's file is in place, every kept key's file is as it was, and the files of due keys are gone |
| Convergence.CycleDelivers | internal/rotator/rotator.go:50-149 | from every state of every run, however earlier cycles ended, a completed cycle converges: every field of the new config and of its entry, the index with all publication times, files with fitting private keys, deadline, settle delay and records |
| Commands.PlaceholderAdvertisesNothing | cmd/ech-keymgr/cmd_init.go:65-88 | the seed record decodes, offers clients no config and is rewritten faithfully |
| Commands.PlaceholderIs | cmd/ech-keymgr/cmd_init.go:65-88 | the seed record, character for character |
| Commands.InitRecord | cmd/ech-keymgr/cmd_init.go:51-73 | writes the placeholder only where there is no record, and leaves any existing set alone |
| Commands.Open | cmd/ech-keymgr/helpers.go:76-78 | memory mirrors the disk afterwards; at most a missing index was created; a damaged one is an error and stays |
| Commands.RotateOne | cmd/ech-keymgr/cmd_rotate.go:78-84 | reopening and rotating keeps the guarantees of Rotate without any assumption about memory |
| Commands.Keygen | cmd/ech-keymgr/cmd_keygen.go:37-98 | a new current key with the least free id, default suites and a fitting private key in its file; every other file and all records untouched; safe at any time |
| Commands.ReadyBySize | internal/rotator/rotator.go:50-149 | exactly which stores a calm machine can rotate, when the previous keys have the new one's shape |
| Commands.Bootstrap | cmd/ech-keymgr/cmd_init.go:38-78 | init and one rotate on a calm machine, from nothing: the one record carries exactly the one stored current key, whose private key is in its file |
| Commands.Operate | cmd/ech-keymgr/cmd_daemon.go:68-94 | any sequence of init, rotate, keygen and outside events, each failing or crashing anywhere: in every state ever passed through every usable config is loaded, indexed and on disk with the private key that belongs to it; a store with all 256 ids in use never changes again |
| GracePeriod.ShortGraceLosesAKey | internal/rotator/rotator.go:126 | if the grace period is shorter than the time to live, from every overlap state R6 to R9 end with a client holding an unexpired config whose key is gone |
| GracePeriod.OverlapExists | internal/rotator/rotator.go:93-107 | for every time to live, a run that ends in such an overlap state, from the seed record and two stored keys |
| GracePeriod.ShortGraceHappens | internal/rotator/rotator.go:126 | so for every time to live and every shorter grace period there is a run after which a key in use is lost |
| GracePeriod.GraceIsExact | internal/rotator/rotator.go:126 | the deadlines that R7 sets outlive every cached copy of every other config, in every run, if and only if the grace period covers the time to live |
| StoreBound.FadingCount | internal/rotator/rotator.go:126-138 | deadlines an interval apart within one grace period: at most the rounded-up quotient of them |
| StoreBound.CyclesSettle | internal/rotator/rotator.go:126-138 | after every run of spaced successful cycles the index is such fading keys and then the current one |
| StoreBound.StoreIsBounded | internal/rotator/rotator.go:126-138 | the store holds at most 1 + ceil(grace/interval) keys after each cycle and one more at its peak, for every run length |
| StoreBound.IdsNeverRunOut | internal/rotator/rotator.go:164-166 | under that bound there is always a free config_id |
| StoreBound.Rounds | cmd/ech-keymgr/cmd_daemon.go:68-94 | the bound holds for the index on disk after any number of successful daemon ticks |
| Verify.Report.Add | internal/verify/types.go:57-59 | appends one finding |
| Verify.Report.Warns | internal/verify/types.go:62-69 | true exactly when some finding is a warning |
| Verify.CollectStore | internal/verify/verify.go:113-116 | the map holds for each id the last listed entry |
| Verify.ReportPublished | internal/verify/verify.go:118-127 | in any iteration order, one right finding for each published id |
| Verify.ReportUnpublished | internal/verify/verify.go:135-148 | a warning for a Current or Previous entry, an observation for one in grace |
| Verify.ReportStored | internal/verify/verify.go:129-148 | in any iteration order, one right finding for each stored id that is not published |
| Verify.ReadFirst | internal/verify/verify.go:77-103 | the first record parsed, its ech value decoded, or the first step that fails |
| Verify.Compare | internal/verify/verify.go:108-148 | one right finding for every published id and every stored unpublished one, and no other |
| Verify.Verify | internal/verify/verify.go:42-150 | never an error: exactly the findings of the first problem, or of the whole comparison; over distinct ids, exactly the findings that Expected says |
| Verify.FindingsMean | internal/verify/verify.go:66-150 | for each code and severity, exactly when it is reported, in terms of the record text, its base64 value, the decoded list and the index: a bad base64 value, a bad list and a missing ech are told apart, and each config_id gets its code |
| Verify.ReadingMeans | internal/verify/verify.go:77-103 | which of the five readings a record has, by what the parser, the base64 decoder and the list decoder say of it |
| Verify.NoWarningIffAgree | internal/verify/verify.go:77-148 | no warning exactly when there is one record, it decodes, every published id is stored and every Current or Previous id is published |
| Verify.RotatedIsVerified | internal/verify/verify.go:77-148 | after any completed cycle there is no warning exactly when there is one record and it is in ServiceMode |
| Cloudflare.PrintedIsStored | providers/cloudflare/cloudflare.go:376-442 | a printed record taken apart by splitRDATA and put together by toRDATA is the same text |
| Cloudflare.PublishedIsStored | providers/cloudflare/cloudflare.go:376-442 | so is every record of a patched set with well-formed tokens |
| Cloudflare.StoredMeansSame | providers/cloudflare/cloudflare.go:376-442 | every line over the alphabet that parses is split, stored and put together again as text of the same record |
| Cloudflare.ContentIsTrusted | providers/cloudflare/cloudflare.go:389-391 | a listing with only content is that content without the white space around it, and means the same record |
| Cloudflare.StructuredText | providers/cloudflare/cloudflare.go:376-388 | the text of a structured listing: an empty target is the owner name, white space around the value is dropped, an empty value leaves no blank |
| Cloudflare.WithoutOne | providers/cloudflare/cloudflare.go:197-202 | deleting one record by its id deletes exactly that one |
| Cloudflare.Zone.GetHTTPSRDATA | providers/cloudflare/cloudflare.go:80-107 | the first page of records as text, or not found |
| Cloudflare.Zone.Create | providers/cloudflare/cloudflare.go:143-152 | one record more on success; after a failure perhaps |
| Cloudflare.Zone.Delete | providers/cloudflare/cloudflare.go:197-202 | one record less on success; after a failure perhaps; deletes without success are counted |
| Cloudflare.Zone.BestEffortDelete | providers/cloudflare/cloudflare.go:204-208 | never touches an old record; exactly as many created ones stay behind as deletes were missed |
| Cloudflare.Zone.Undo | providers/cloudflare/cloudflare.go:204-208 | its loop: after i deletes the missed records and those still to come stand behind the old ones |
| Cloudflare.Zone.CreateLine | providers/cloudflare/cloudflare.go:138-153 | one line created, or the undo: the old records and as many created ones as deletes were missed |
| Cloudflare.Zone.CreateAll | providers/cloudflare/cloudflare.go:135-154 | all lines created in order behind the old records, or the undo with what it missed |
| Cloudflare.Zone.DeleteAll | providers/cloudflare/cloudflare.go:156-163 | the listed records go one by one, the created ones stay |
| Cloudflare.Zone.PutHTTPSRDATA | providers/cloudflare/cloudflare.go:116-164 | the contract of an atomic provider's Put in every state of every API call; success leaves exactly the new set if and only if at most 100 records were there; a failure of definite calls leaves the old set with as many new records behind it as deletes of the undo were missed, or, when a delete of an old record was missed, a rest of the old set and all of the new one: exactly the old set if no delete was missed |
| Cloudflare.PublishDNS | providers/cloudflare/cloudflare.go:80-164 | publishing through this provider keeps the contract that the rotation relies on, on the first page of any set with well-formed tokens |
| Names.ToLower | internal/rotator/rotator.go:328-338 | the byte loop lowers exactly the 26 ASCII capitals, each to its own small letter |
| Names.TrimTrailingDots | internal/rotator/rotator.go:340-345 | the loop removes all trailing dots |
| Names.RelNameExactly | internal/rotator/rotator.go:315-326 | "@" for the zone, the labels for a name below it, any other name as it is, all in lower case without trailing dots |
| Names.RelNameExamples | internal/rotator/rotator.go:306-326 | as documented: `A.b.C.` in the zone `c` is `a.b`, and the zone itself is `@` |
| Names.FqdnExamples | providers/cloudflare/cloudflare.go:444-461 | the four documented cases: `@`, the empty name, a relative name, a name that is already full |
| Names.FqdnOfRelName | providers/cloudflare/cloudflare.go:451-461 | an in-zone name survives relName and fqdn exactly when it is the zone, or its labels before the zone are not empty, not "@", do not end in a dot and are not again the zone or below it |
| Names.RelNamesAgree | cmd/ech-keymgr/helpers.go:144-154 | for all names and zones, exactly when both versions of relName agree: as many extra trailing dots on name and zone for a name in the zone, no extra dots on any other name, and two corner cases |
| Names.OneDotZonesAgree | cmd/ech-keymgr/helpers.go:144-154 | for a zone with at most one trailing dot they agree exactly on names with at most one |
| Names.RelNamesDiffer | cmd/ech-keymgr/helpers.go:144-154 | with two trailing dots they do not |

## Left out

- Commands.Operate: record sets in which a bare value contains a quote are not covered, because there the claim can fail
  (`Quotes.QuoteMisleads`); for a quote behind the first ech only a single publish is stated
  (`Quotes.QuotesBehindEchAdvertise`).
- The JSON text of `.meta.json`, its version, domain and time fields: the index is a sequence of entries, read back as
  written, or damaged.
- State strings other than the three valid ones: a state is one of three values.
- PEM armour and PKCS#8 wrapping: a key file is its decoded blocks, and the key block holds the raw private key. The
  arithmetic of X25519: the public key is derived by an unknown function.
- The quality of randomness: private keys and draws are arbitrary values.
- The text of `.ech` and temporary file names, and the width of the random tags: names are their parts.
- `Store.Delete`, `Open` and the accessors: not used by the rotation.
- `New`, `applyDefaults` and the parsing of cipher suite names: a cycle starts from resolved settings.
- The mutexes and `ErrBusy`: one cycle at a time is an assumption.
- fsync durability, file modes and full disks other than as a failed call.
- Timeouts and the daemon's ticker: a wait lasts at least its delay or fails.
- `keep_count`: it is never read.
- Reload strategies, HTTP, JSON envelopes, credentials, zone id lookup and its cache, TTL clamping, and
  `DeleteHTTPSRDATA`, which the rotation does not use.
- The Akamai, PowerDNS and Route 53 providers: they are covered by the contract of `Machine.Host.PutRRset`.
- Cloudflare's own ordering of listed records: a listing shows the oldest first.
- DNS writes that take effect after the call has returned, and changes of the records by others.
- Several key pairs per file, and KEMs other than X25519, which the tool rejects.
- Non-ASCII text in records and names.
- The wording of errors and findings; of a finding only severity, code and config_id are kept.
