# Proofs about an OCI registry toolkit

This project models the parts of a Go toolkit for OCI registries in which most of
its logic lies, and proves what they are for. Each module follows one component.

- `Download`, `DownloadRuns`, `DownloadIO`: the parallel download pipeline, as a
  transition system whose steps are those of the fetchers, the ordered writer, the
  reader of the pipe and the context. The six-slot ring, the channels and the pipe
  (whose first close wins) are part of the state. Every run is bounded, and none
  leaves a goroutine behind.
- `Upload`, `UploadRuns`, `UploadSuccess`, `UploadWriter`, `Ranges`, `Decimal`: the chunked upload
  protocol of the OCI distribution specification ("Pushing a blob in chunks"),
  client and server together, over a network that loses replies and truncates
  bodies; and the byte ranges of uploads and downloads (section 14.1.2 of
  RFC 9110) down to their decimal digits.
- `Scope`, `ScopeBuild`, `ScopeIter`, `ScopeSets`, `ScopeText`, `ScopeRoundTrip`,
  with `Ordering` and `Text`: authorization scopes, sorted slices and bit masks that stand for sets
  of triples, with their iterator, set operations, printer and parser.
- `Mem`, `MemOps`, `MemImmutable`, `MemChanges`, `MemRegistry`: the in-memory
  registry with immutable tags and the reachability guard on its deletions, along
  edges defined on the decoded manifests.
- `LayoutWalk`, `LayoutIndex`, `LayoutRegistry`, `Names`: the layout registry, its
  walk over possibly cyclic stores, and its index, a list filtered in place that
  stands for a map.
- `Unify`, `Merged`, `Listing`, `Paging`, `TagsPage`: the read whose first success wins, the
  merged listing of two registries, and listing page by page while tags change.
- `Reference`, `RelativeReference`, `Challenge`, `AuthFile`: references, the `Www-Authenticate` header
  (section 2.2 of RFC 2616, section 4.1 of RFC 7235) and the credentials file whose
  map grows while it is ranged over.

Code that works on fields, slices and buffers is a class or a method with loops,
proved against a function on values; what the code promises is then proved about
that function, over every input, order, interleaving or run. Digest functions,
decoders, the network and the scheduler are parameters or arbitrary choices.

`dafny verify dfyconfig.toml` checks everything.

## What the code does, where one might expect otherwise

- The configuration comment of the in-memory registry calls the protection of
  referenced content "not implemented" (`ocimem/registry.go:83-97`); the deletions
  do implement it, and the model follows them.
- A push under immutable tags ends, with success, at the first tag that names the
  manifest already, so later tags may be left unset. `MemImmutable.PushTagsExactly`
  says when the push did what it says, `PushSkipsLaterTag` shows when not.
- Under immutable tags the bytes of what a tag reaches are safe, but not the media
  type they are stored under: an untagged push of the same bytes replaces it
  (`MemImmutable.StepKeepsStored`, `StoredTypeChanges`).
- The offset recovered when an upload is resumed without one is right exactly from
  size 2 on: at size 0 it is -1 and at size 1 it is 0 (`Ranges.RecoveredOffset`).
  The server refuses the -1, and the protocol's invariant covers both.
- The catalog entry of a scope and a repository without a name share their
  representation. `ScopeBuild.HoldsExactlyWhenDistinguishable` and
  `ScopeIter.IterExactlyWhenClean` say exactly when that shows.
- Not every scope survives being printed and parsed, nor does every text survive
  being parsed, printed and parsed: `ScopeRoundTrip.PrintParse` and
  `ParsePrintParse` say exactly which do, `BlankIsLost` and `WordIsLost` show two
  that do not.
- A reference without a host is read back from its printed form except when its
  first component can be a host (`Reference.ParsesAsPrinted`).
- A limit on the unified listing can hide a registry's failure
  (`Merged.FailureHiddenExactly`).
- Deleting the empty tag from the layout registry deletes every entry of the
  repository when it has an untagged one; `LayoutIndex.DeleteTagTakesOnlyThatTag`
  says exactly when a deletion takes more than its tag.
- The client's `Limit` is a page size, not a bound on what is yielded, and `Paging`
  states it so.

## Model

| member | source | states |
|---|---|---|
| `Download.BuildChunks` | ocilarge/download.go:205-223 | The loop over offsets lists exactly the ranges of `Ranges`. |
| `Download.RangesTile` | ocilarge/download.go:212-223 | With a positive chunk size the ranges cover [probe length, total size) exactly once, in order, none empty and none above the chunk size. |
| `Download.StepKeepsInv` | ocilarge/download.go:212-295 | Every step of every interleaving (launch, fetcher returning or sending, drain, write, cancellation, reader closing) keeps the invariant: the pipe holds the probe and the drained chunks in order, each undrained chunk is in slot (chunk mod 6) in the channel made for it, and a send never blocks. |
| `DownloadRuns.RunKeepsInv` | ocilarge/download.go:176-295 | The same over whole runs. |
| `DownloadRuns.CancelledExactly` | ocilarge/download.go:186-295 | In every reachable state the fetches are cancelled exactly when the caller has cancelled, the pipe was closed with an error, or the pipeline has returned: each error path cancels before it waits. |
| `DownloadRuns.WindowBound` | ocilarge/download.go:225-257 | At most 6 chunks are in flight. |
| `DownloadRuns.EofMeansComplete` | ocilarge/download.go:186-295 | The reader never gets more than the total size, and a clean end of the pipe means it got exactly that many bytes. |
| `DownloadRuns.ReaderGetsThePrefix` | ocilarge/download.go:176-295 | If every fetch that succeeds returns the bytes of one blob, the reader has a prefix of that blob in every reachable state, and the whole blob when the pipe ended cleanly. |
| `DownloadRuns.OutcomeIsReported` | ocilarge/download.go:186-295 | A finished pipeline has closed the pipe with an error exactly when some step of the run failed; the deferred close never hides it. |
| `DownloadRuns.Progress` | ocilarge/download.go:212-295 | As long as the pipeline has not returned, a step other than cancelling or closing is enabled. |
| `DownloadRuns.StepDecreasesMeasure` | ocilarge/download.go:212-295 | Every step lowers a natural-valued measure. |
| `DownloadRuns.RunsAreBounded` | ocilarge/download.go:212-295 | No run is longer than the measure of the state it starts in. |
| `DownloadRuns.StuckMeansFinished` | ocilarge/download.go:262-295 | When nothing but cancelling or closing can happen, the pipeline has returned, the pipe is closed and no fetcher goroutine is left. |
| `DownloadIO.FetchRange` | ocilarge/download.go:129-161 | The retry loop returns the first of the three attempts that gave enough bytes, cut to the range, and fails exactly when none did. |
| `DownloadIO.DeriveChunkSize` | ocilarge/download.go:101-115 | The chunk size stays within its clamp, so it is positive; above the lower clamp it is no more than twice the measured throughput. |
| `DownloadIO.BlobReader.Read` | ocilarge/download.go:334-365 | A clean end of file is reported exactly when all bytes of the right length and digest were seen, or nothing is verified; each error is reported exactly in its own case. |
| `Ordering.LessIsStrictTotal` | ociauth/scope.go:87-95 | Byte-wise string comparison, as strings.Compare does it, is a strict total order. |
| `Ordering.IncreasingIsUnique` | ociauth/scope.go:439-444 | Two strictly increasing sequences with the same members are equal: what makes sorted forms canonical. |
| `Ordering.SortDistinct` | ociauth/scope.go:168-172 | Sorting and compacting gives the distinct members in increasing order. |
| `Scope.CompareScopes` | ociauth/scope.go:87-95 | Comparing two resource scopes gives 0 only on equal ones. |
| `Scope.BeforeIsStrictTotal` | ociauth/scope.go:87-95 | The order on resource scopes is a strict total order. |
| `Scope.EqualIffSameMembers` | ociauth/scope.go:439-444 | Canonical scopes are Equal exactly when they have the same members, unlimited ones included. |
| `Scope.SomethingIsMissing` | ociauth/scope.go:109-140 | No canonical scope but the unlimited one holds every resource scope: some triple is always missing. |
| `ScopeBuild.AddAll` | ociauth/scope.go:172-191 | The loop with its running cases, a new name or one more bit on the last mask, computes `Build`. |
| `ScopeBuild.NewScope` | ociauth/scope.go:168-195 | The result is well-shaped for any input; without an empty resource on a known repository action, it is canonical and its members are exactly the input, in whatever order and however often given. |
| `ScopeBuild.BuildIsExact` | ociauth/scope.go:168-195 | For any sorted input, the masks and `others` of the result say exactly what the input entries claimed. |
| `ScopeBuild.BuildDenotes` | ociauth/scope.go:168-195 | The result of building denotes the input set and is canonical. |
| `ScopeBuild.Search` | ociauth/scope.go:370-380 | Finding a name in the sorted slice: its index, or the length exactly when it is absent. |
| `ScopeBuild.HoldsIsMembership` | ociauth/scope.go:362-385 | Holds is membership in the denoted set. |
| `ScopeBuild.HoldsExactlyWhenDistinguishable` | ociauth/scope.go:362-385 | When empty resources are allowed, Holds over a built scope answers membership for every triple if and only if the input does not confuse the catalog entry with a nameless repository. |
| `ScopeBuild.CatalogPassesForPull` | ociauth/scope.go:362-385 | For instance, the catalog entry alone also answers for the pull of a nameless repository. |
| `ScopeIter.Yield` | ociauth/scope.go:242-254 | The closure that merges `others` lazily yields the merge of what is still to come. |
| `ScopeIter.YieldEntry` | ociauth/scope.go:255-276 | One repository entry is expanded into the actions of its mask, in order, or into the catalog scope. |
| `ScopeIter.Iter` | ociauth/scope.go:237-284 | The iterator yields the sequence `Items`. |
| `ScopeIter.ItemsAreTheMembers` | ociauth/scope.go:237-284 | The items are strictly increasing, so no item comes twice, and they are exactly the members. |
| `ScopeIter.ExpandMeaning` | ociauth/scope.go:255-276 | Expanding the masks gives the known triples, in order, as many as there are bits set. |
| `ScopeIter.Len` | ociauth/scope.go:199-208 | Len counts the members. |
| `ScopeIter.RebuiltFromItems` | ociauth/scope.go:168-284 | NewScope over the iterator's output is Equal to the scope iterated over. |
| `ScopeIter.IterExactlyWhenClean` | ociauth/scope.go:237-284 | Iterating over a built scope gives the input back if and only if the input has no nameless repository with a known action. |
| `ScopeIter.NamelessPullIsForgotten` | ociauth/scope.go:255-261 | For instance, a nameless pull is never yielded. |
| `ScopeSets.UnionNames` | ociauth/scope.go:305-333 | The merge of names and masks, scanned in parallel, computes `MergeNames`. |
| `ScopeSets.MergeNamesMeaning` | ociauth/scope.go:305-333 | Merging keeps names sorted and masks non-zero, and each name has a bit exactly when one of the inputs gave it that bit. |
| `ScopeSets.UnionOthers` | ociauth/scope.go:335-356 | The merge of the two `others` slices computes `MergeOthers`. |
| `ScopeSets.Union` | ociauth/scope.go:289-360 | Union denotes set union, keeps the canonical form, is unlimited when either is, and returns its first argument unchanged, original text included, when nothing is added. |
| `ScopeSets.UnionMeaning` | ociauth/scope.go:289-360 | The same for the merge by itself. |
| `ScopeSets.UnionLaws` | ociauth/scope.go:289-360 | Union is commutative, associative and idempotent up to Equal. |
| `ScopeSets.CheckNames` | ociauth/scope.go:395-417 | The loop that looks each name and mask up computes `ContainsNames`. |
| `ScopeSets.CheckOthers` | ociauth/scope.go:418-435 | The loop over `others` computes `ContainsOthers`. |
| `ScopeSets.ContainsMeaning` | ociauth/scope.go:388-436 | Those two checks together are the subset relation. |
| `ScopeSets.Contains` | ociauth/scope.go:388-436 | Contains is subset, with unlimited at the top. |
| `ScopeText.ParseScope` | ociauth/scope.go:143-165 | Parsing computes `Parse`; when no field is nameless the result is canonical and its members are exactly those of the fields. |
| `ScopeText.AppendField` | ociauth/scope.go:146-161 | One field gives one scope for each of its actions, or one opaque scope when it has no three parts. |
| `ScopeText.String` | ociauth/scope.go:457-491 | Printing computes `Print`: an unlimited scope is "*", a parsed or empty one is its text, and any other is rendered from its items. |
| `ScopeText.ParsedPrintsAsGiven` | ociauth/scope.go:143-165 | For every text, parsing it and printing the scope gives the text back. |
| `ScopeText.WriteItems` | ociauth/scope.go:467-491 | The buffer loop joins actions of one resource by commas and tokens by spaces, as `Render` does. |
| `ScopeRoundTrip.TokensReadBack` | ociauth/scope.go:143-165 | The printed tokens of printable items parse back to those items, unless the word "repository" is followed by actions of a nameless repository: then the word is gone. |
| `ScopeRoundTrip.PrintParse` | ociauth/scope.go:457-491 | Printing a limited canonical scope and parsing the text gives an Equal scope if and only if every entry is printable and the word "repository" does not occur together with an unknown action of a nameless repository. |
| `ScopeRoundTrip.ParsePrintParse` | ociauth/scope.go:143-165 | For every text: parsed, printed afresh and parsed again it gives an Equal scope if and only if it names neither the blank entry, nor push or delete of a nameless repository, nor the word "repository" together with an unknown action of one. |
| `ScopeRoundTrip.BlankIsLost` | ociauth/scope.go:478-487 | The text "::" does not survive: its entry is printed as nothing. |
| `ScopeRoundTrip.WordIsLost` | ociauth/scope.go:473-477 | Nor does "repository repository::a", for any unknown action in the place of a: it is printed as "repository,a". |
| `Text.FieldsOfJoin` | ociauth/scope.go:143-146 | Joining non-empty tokens without white space and splitting into fields gives the tokens back. |
| `Ranges.SeenThroughTheWire` | ociclient/writer.go:496-502 | What the server reads out of any Content-Range the client writes, empty and negative ranges included. |
| `Ranges.NegativeStartIsRefused` | ociserver/blobuploads.go:359-383 | A Content-Range with a negative start is refused by the server. |
| `Ranges.RecoveredOffset` | ociclient/writer.go:267-276 | The offset recovered from an upload status reply is the server's size exactly when that size is at least 2. |
| `Ranges.BlobGet` | ociserver/blobs.go:57-118 | Every partial reply has 0 <= first <= last < size, the body data[first..last+1] and a length equal to the body's. |
| `Ranges.ReadRange` | ociserver/blobs.go:57-95 | The branches that read and default the header compute `ParseHeader`. |
| `Ranges.HeaderReadsBack` | ociclient/reader.go:38-64 | The Range header the client writes for [o0, o1) is read by the server as the same range, open ends included. |
| `Ranges.RangeThroughServer` | ocimem/reader.go:38-52 | A client range request through the server and the store returns exactly data[o0..min(o1, size)], for every non-empty such range. |
| `Ranges.RefusedThroughServer` | ociserver/blobs.go:57-103 | A range that a client asks for is refused exactly when it is empty or starts at or past the end; the whole of a blob never is. |
| `Ranges.SuffixThroughServer` | ociserver/blobs.go:57-118 | A suffix range returns the last n bytes, or everything when there are fewer. |
| `Decimal.ParsePrinted` | ociclient/writer.go:496-515 | Printing and parsing an int64 gives it back. |
| `Upload.HandleAppends` | ociserver/blobuploads.go:172-251 | However much of the body arrives, the server only ever appends a prefix of it, only at the offset named; success means all of it was appended, and a blob is stored only when its digest matches. |
| `Upload.StaleRequestIsRefused` | ocimem/blob.go:121-134 | A request whose start lies below the server's size changes nothing and is refused: no PATCH or PUT body is applied twice. |
| `UploadSuccess.PatchAccepts` | ociserver/blobuploads.go:172-251 | A PATCH with a body is accepted exactly when it starts at the upload's end and arrives whole; then the upload is the old one with the body behind it. |
| `UploadSuccess.PutCreates` | ociserver/blobuploads.go:253-354 | A PUT is created exactly when its body, if any, starts at the upload's end and arrives whole, the session has not failed, and the digest is that of the old upload with the body behind it; then that is stored, and otherwise nothing is. |
| `UploadSuccess.FlushSucceeds` | ociclient/writer.go:353-391 | A flush succeeds exactly when there is nothing to send, or its request and reply arrive whole, it starts at the upload's end, and what it commits has the digest and has not failed; the writer moves on exactly then. |
| `UploadSuccess.WriteSucceeds` | ociclient/writer.go:328-351 | A write that fits into the chunk is held back and succeeds; any other flushes the chunk and the new bytes, with the outcome of that. |
| `UploadSuccess.CloseSucceeds` | ociclient/writer.go:409-419 | The first close flushes what was held back and keeps its outcome; every later one repeats it. |
| `UploadSuccess.RecoveredUploadGoesOn` | ociclient/writer.go:267-276 | With at least two bytes uploaded, a writer that recovers its offset goes on: its next flush that arrives whole is appended. |
| `UploadSuccess.OneMoreTry` | ocilarge/upload.go:50-83 | After each try of a chunk, it is written on a sound session exactly when the first request that arrived did so whole; requests lost on the way leave everything as it was, and one that arrives in part spoils the upload for good. |
| `UploadSuccess.TwoLostIsDelivered` | ocilarge/upload.go:50-83 | A network that loses up to two requests of each chunk and delivers the next one and the commit delivers the whole upload. |
| `UploadRuns.StepKeepsInv` | ociclient/writer.go:328-451 | Every client operation, with an arbitrary part of the body delivered and replies lost at will, keeps the invariant: the server holds a prefix of the stream, the client's chunk is the stream from its flushed position on. |
| `UploadRuns.RunKeepsInv` | ociclient/writer.go:328-451 | The same over whole runs; the server's content only grows. |
| `UploadRuns.FlushHasEffect` | ociclient/writer.go:353-391 | An acknowledged flush appended its body whole, at the offset the client believed in; any other appended a prefix of it there or nothing; blobs change only by a commit of what the upload then holds. |
| `UploadRuns.StepKeepsFlushedWithin` | ociclient/writer.go:353-391 | The client never believes more to be flushed than the server has, unless it resumes at an offset chosen by its caller. |
| `UploadRuns.WriteAcknowledges` | ociclient/writer.go:328-351 | After a successful write that flushed, the server has exactly the flushed bytes; a failed write is one that had to flush. |
| `UploadRuns.CommitStoresTheStream` | ociclient/writer.go:437-451 | A successful commit under the digest of what was written stores exactly that. |
| `UploadRuns.UploadIsExact` | ociclient/writer.go:328-451 | From a fresh upload and over every run, a successful commit of the digest of the first n stream bytes stores exactly those bytes. |
| `UploadWriter.UploadSession.ResumeSession` | ocimem/writer.go:62-82 | Resuming sets the offset to check and nothing else. |
| `UploadWriter.UploadSession.WriteBuffer` | ocimem/blob.go:121-134 | A write is taken exactly when no offset is to be checked or the one to be checked is the buffer's size; then the buffer ends with the data and nothing is left to check, and otherwise nothing changes. |
| `UploadWriter.UploadSession.CommitBuffer` | ocimem/blob.go:152-193 | The buffer's Commit on its fields, against the specification of a commit. |
| `UploadWriter.UploadSession.CopyFrom` | ociserver/blobuploads.go:172-251 | Copying a body piece by piece has the effect of one write per body, whatever the piece size. |
| `UploadWriter.UploadSession.BlobUploadPatch` | ociserver/blobuploads.go:172-251 | The PATCH handler from the header text on, for every text, for no header, and for streaming bodies. |
| `UploadWriter.UploadSession.BlobUploadPut` | ociserver/blobuploads.go:253-354 | The PUT handler from the header text on, for every text, for no header, and for streaming bodies. |
| `UploadWriter.BoundsOfRequest` | ociclient/writer.go:353-391 | The header that the client writes makes either handler do what the request on numbers says. |
| `UploadWriter.HeaderlessNeedsEmpty` | ociserver/blobuploads.go:189-194 | Without a Content-Range, streamed or not, a body is accepted only by an upload that is still empty, and then becomes its content. |
| `UploadWriter.BlobWriter.SendRequest` | ociclient/writer.go:353-391 | A request sent over the wire is handled with the client's offsets as the server reads them. |
| `UploadWriter.BlobWriter.FlushTo` | ociclient/writer.go:353-391 | flush on the writer's fields and the server's, with its exact condition of success. |
| `UploadWriter.BlobWriter.WriteBytes` | ociclient/writer.go:328-351 | Write on the writer's fields and the server's, with its exact condition of success. |
| `UploadWriter.BlobWriter.CloseUpload` | ociclient/writer.go:409-419 | Close on the writer's fields and the server's, with its exact condition of success. |
| `UploadWriter.BlobWriter.CommitUploaded` | ociclient/writer.go:437-451 | Commit on the writer's fields and the server's, with its exact condition of success. |
| `UploadWriter.WriteWithRetries` | ocilarge/upload.go:50-83 | One buffer written with retries leaves client and server in step with the stream, and is written on a sound session exactly when it needs no request or the first of three requests to arrive does so whole. |
| `UploadWriter.WriteChunks` | ocilarge/upload.go:50-78 | The loop over the chunks ends early only on a network that does not deliver the upload; otherwise writer and server are in step with the whole stream. |
| `UploadWriter.UploadLargeBlob` | ocilarge/upload.go:26-83 | Over every network and whatever chunk size the server asks for, the upload succeeds exactly when no read fails and every chunk and the commit are delivered, in particular when at most two requests of each chunk are lost; success means that the whole file is stored under its digest; the session always holds a prefix of the file; after a failed read nothing is stored. |
| `Mem.ReferencesAreTheNames` | ocimem/desciter.go:42-110 | For each of the four media types, the references of a manifest are exactly its decoded manifests, layers, config and subject, each under its kind; other types have none, and only content that cannot be decoded is an error. |
| `Mem.ChildrenAreTheEdges` | ocimem/desciter.go:81-110 | The walk goes on from a stored manifest to exactly what its decoded form names. |
| `Mem.RefersToIsReachability` | ocimem/writer.go:234-255 | When no decode error occurs, refersTo is true exactly when the digest is reachable along edges defined on the decoded manifests: config, layer, manifest and subject, media types decided by the referring descriptor. |
| `Mem.RefersToFailure` | ocimem/writer.go:234-255 | An error means that undecodable content is reachable. |
| `MemImmutable.GuardedIsUnreachable` | ocimem/deleter.go:31-76 | A deletion that gets past the guard is of something no tag reaches along the edges of the decoded manifests; one that is denied is of something a tag reaches; an error means that undecodable content hangs off a tag. |
| `MemImmutable.TaggedManifestReaches` | ocimem/desciter.go:81-110 | Whatever the stored manifest of a tag, of one of the four types, names as a manifest, a layer, its config or its subject is reached by the tag. |
| `MemImmutable.NamedByTagStays` | ocimem/deleter.go:31-76 | With immutable tags, deleting the digest of anything that a tagged manifest names, as a blob or as a manifest, is refused and changes nothing. |
| `MemImmutable.StepPreserves` | ocimem/deleter.go:31-94 | With immutable tags, no operation moves or removes a tag, every tag's manifest stays stored, and everything stored that a tag reaches stays stored with the same bytes. |
| `MemImmutable.RunPreserves` | ocimem/writer.go:85-190 | The same over every run. |
| `MemImmutable.StepKeepsStored` | ocimem/writer.go:178-186 | The media type under which something that a tag reaches is stored stays as well if and only if the step does not store that digest in that repository under another one. |
| `MemImmutable.StoredTypeChanges` | ocimem/writer.go:143-186 | For instance, pushing a tagged manifest's bytes again, untagged and under another media type, leaves the tag and the stored manifest with different media types. |
| `MemImmutable.StepKeepsAddressed` | ocimem/registry.go:155-175 | In any configuration, content stays stored under its own digest. |
| `MemImmutable.StepKeepsComplete` | ocimem/writer.go:193-228 | With strict child references, everything that a tagged manifest names, foreign layers and subjects aside, stays present. |
| `MemImmutable.RunKeepsComplete` | ocimem/writer.go:193-228 | The same over every run. |
| `MemImmutable.CheckedTagsAreNew` | ocimem/writer.go:143-160 | A push that gets past the tag loop names only new tags. |
| `MemImmutable.PushTagsExactly` | ocimem/writer.go:143-160 | After a successful push all named tags point to the manifest if and only if all were new or all pointed to it before. |
| `MemImmutable.PushSkipsLaterTag` | ocimem/writer.go:152-155 | A new tag listed after one that is set already is not set, though the push succeeds. |
| `MemRegistry.Registry.PushBlob` | ocimem/writer.go:31-48 | Succeeds exactly for data that matches its descriptor and a valid name; then only that digest of that repository differs, and holds the data; otherwise nothing changes. Like every method of the class it keeps the invariant and, with immutable tags, everything a tag reaches. |
| `MemRegistry.Registry.CommitUpload` | ocimem/writer.go:62-82 | Succeeds exactly for a valid name and the right digest; then only that digest of that repository differs. |
| `MemRegistry.Registry.MountBlob` | ocimem/writer.go:85-99 | Succeeds exactly when the other repository has the blob and the name is valid; then the digest holds that very blob and nothing else differs. |
| `MemRegistry.Registry.LookAtTags` | ocimem/writer.go:143-160 | The tag loop ends as `CheckTags` says. |
| `MemRegistry.Registry.CheckReferences` | ocimem/writer.go:193-228 | The loop over references accepts exactly what `ReferencesOk` does. |
| `MemChanges.PushIsExact` | ocimem/writer.go:103-190 | The same of the operation as a function, from the tag and reference loops. |
| `MemChanges.CheckTagsMeaning` | ocimem/writer.go:143-160 | The tag loop stops at the first tag that is invalid, or taken under immutable tags, and nowhere else; what that tag is decides the outcome. |
| `MemRegistry.Registry.PushManifest` | ocimem/writer.go:103-190 | Exactly when a push is done, in either configuration: name and digest are good, and either the first tag that halts it names this manifest already, or all tags are free and what the manifest names is there. When it stores, the digest holds the data and media type, every given tag names the new descriptor, and every other tag, manifest, blob and repository is as it was; otherwise nothing is stored. Each error says exactly why. |
| `MemRegistry.Registry.RepoTagIter` | ocimem/desciter.go:67-79 | One reference for each tag, in the order in which the map is visited. |
| `MemRegistry.Registry.RefersToAny` | ocimem/writer.go:234-256 | The recursive walk ends and answers reachability: true exactly when the digest is reached, false exactly when not, and fails only when it meets content that cannot be decoded. |
| `MemRegistry.Registry.LookForReferences` | ocimem/deleter.go:41-49 | The guard passes only what no tag reaches, denies only what one reaches, and fails only when a tag leads to content that cannot be decoded. |
| `MemRegistry.Registry.DeleteBlob` | ocimem/deleter.go:31-54 | Success means that the blob was there and no tag reached it, along the edges of the decoded manifests, under immutable tags, and that it alone is gone; each error says why; anything but success changes nothing. |
| `MemRegistry.Registry.DeleteManifest` | ocimem/deleter.go:57-76 | The same for manifests. |
| `MemRegistry.Registry.DeleteTag` | ocimem/deleter.go:79-94 | Succeeds exactly when tags are not immutable and the tag is there; then it alone is gone. |
| `LayoutWalk.ReachesThroughChildren` | ocilayout/refs.go:165-188 | Reachability that avoids a set of digests is the node itself, or reachability through its children avoiding the node too: why marking a path and cutting by digest loses nothing. |
| `LayoutWalk.Walker.Walk` | ocilayout/refs.go:165-188 | The marked depth-first walk ends on every finite store, cyclic or not, restores its marks and, on success, adds exactly the reachable digests; failure means that something unreadable is reachable. |
| `LayoutWalk.Reachable` | ocilayout/refs.go:147-163 | On success the result's keys are exactly the digests reachable from the top-level references. |
| `Names.CheckTag` | ociref/reference.go:234-251 | The byte loop accepts exactly the valid tags. |
| `Names.RepositoryChars` | ociref/reference.go:84-93 | A repository name has none of the characters that a reference uses around it. |
| `LayoutIndex.RefReadsBack` | ocilayout/layout.go:228-276 | A reference name made from a repository, a tag or none, and a digest reads back as that repository and tag, whatever the default repository. |
| `LayoutIndex.BareNamesNeedADefault` | ocilayout/layout.go:235-247 | A bare tag reads as that tag of the default repository and the empty name as the default repository itself; both are refused when there is none. |
| `LayoutIndex.FullRefsAreExact` | ocilayout/layout.go:248-276 | Any other name is read exactly as the valid repository, tag and good digest that it spells. |
| `LayoutIndex.UpsertUpdates` | ocilayout/writer.go:201-231 | On a list with readable, unique references, upsert is map update: the key is bound to the new manifest and every other key keeps its own. |
| `LayoutIndex.DroppingKeepsTheRest` | ocilayout/deleter.go:53-72 | Filtering keeps exactly the entries that do not match. |
| `LayoutIndex.TagLookup` | ocilayout/refs.go:71-85 | tagDescriptor is map lookup. |
| `LayoutIndex.DeleteTagRemoves` | ocilayout/deleter.go:74-100 | Deleting a tag removes exactly its key, and succeeds exactly when the key is there. |
| `LayoutIndex.DeleteManifestRemoves` | ocilayout/deleter.go:36-72 | Deleting a manifest removes exactly the repository's keys, tagged or not, that point to it; deleting the empty digest, all of them. |
| `LayoutIndex.DeleteTagTakesOnlyThatTag` | ocilayout/deleter.go:74-121 | Deleting a tag takes no entry but that tag's if and only if the tag is not empty, or the repository has no untagged entry, or no tagged one. |
| `LayoutIndex.EmptyTagTakesTheTagged` | ocilayout/deleter.go:102-121 | For instance, with one entry of each kind, deleting the empty tag takes both. |
| `LayoutIndex.DeleteEmptyTag` | ocilayout/deleter.go:74-121 | Deleting the empty tag is refused without an untagged entry, and takes every entry of the repository when there is one. |
| `LayoutIndex.TagDescriptorFromRefs` | ocilayout/refs.go:71-85 | The first reference with the tag, among those of the repository in order, is the first matching entry of the list. |
| `LayoutRegistry.Index.UpsertManifestRef` | ocilayout/writer.go:201-213 | The loop over the slice, replacing in place or appending, computes `Upsert`. |
| `LayoutRegistry.Index.RefsForRepo` | ocilayout/refs.go:53-69 | The entries of the repository with their tags, in order, and failure exactly when some entry cannot be read. |
| `LayoutRegistry.Index.ResolveTag` | ocilayout/refs.go:71-85 | The loop over those references computes `TagDescriptor`. |
| `LayoutRegistry.Index.FilterInPlace` | ocilayout/deleter.go:53-67 | Filtering into the slice's own backing array: what was kept so far, then the old tail; the loop ends with an error at the first entry that cannot be read, with the array overwritten up to there, and otherwise at the end. |
| `LayoutRegistry.FilterCompletes` | ocilayout/deleter.go:45-72 | After refsForRepo has read the list, no filter loop ends early, and the front of the array is the list without the matching entries. |
| `LayoutRegistry.StoppingEarlyLoses` | ocilayout/deleter.go:55-58 | A loop that did end early would have lost an entry and doubled another. |
| `LayoutRegistry.Index.DeleteManifestEntries` | ocilayout/deleter.go:36-72 | Deletion, its loop's error branch included, either leaves the list as it was, with the error that the specification names, or filters it to the end. |
| `LayoutRegistry.Index.DeleteTagEntries` | ocilayout/deleter.go:74-100 | The same for tags. |
| `LayoutRegistry.StepRefines` | ocilayout/writer.go:121-175 | Each operation on the list, with empty tags and digests too, is the operation on the map. |
| `LayoutRegistry.RunRefines` | ocilayout/writer.go:201-231 | From an empty index, every run keeps keys unique and the list stands for the map. |
| `LayoutRegistry.LookupAgrees` | ocilayout/refs.go:71-85 | A tag looked up in the list gives the map's value, or an error when the map has none. |
| `Unify.StepKeepsInv` | ociunify/unify.go:129-165 | Every interleaving of the two senders, the caller's selects and the end of the context keeps the invariant on who holds each result and each cancel function. |
| `Unify.SuccessWins` | ociunify/unify.go:129-165 | What is returned is that registry's own result; a registry's failure only if both failed; the context's error only if the context ended. |
| `Unify.NothingIsLost` | ociunify/unify.go:129-165 | At rest, every successful result was returned or closed, exactly one of them and once, and every cancel function was called once or handed to the caller. |
| `Unify.RunsAreBounded` | ociunify/unify.go:129-165 | No run takes more than 11 steps. |
| `Unify.StuckMeansFinished` | ociunify/unify.go:129-165 | A run that can go no further has returned, and no sender is left blocked. |
| `Listing.LimitIter` | iter.go:60-80 | The counting loop yields the first items up to the limit; an error behind them is not reached. |
| `Listing.All` | iter.go:28-37 | The items, or none of them and the error. |
| `Listing.MapKeysIter` | ocimem/lister.go:76-86 | The map's keys after the starting point, sorted. |
| `Listing.OrderDoesNotMatter` | ocimem/lister.go:76-86 | The listing does not depend on the order in which the map was ranged over. |
| `Merged.MergeIter` | ociunify/lister.go:60-90 | In order and once each, the items of the registries that did not fail; then the first error that is not an unknown name. The name is unknown, and nothing listed, exactly when neither registry knows it. |
| `Merged.Tags` | ociunify/lister.go:34-47 | The unified listing limits the merge. |
| `Merged.LimitThenMerge` | ociunify/lister.go:34-47 | Limiting each sorted listing to n, merging and limiting to n gives the first n of the sorted union, for every n > 0. |
| `Merged.UnifiedTags` | ociunify/lister.go:34-90 | The limited unified listing of two registries is the first n of the union of their tags. |
| `Merged.FailureHiddenExactly` | iter.go:60-80 | For any two listings with an error that counts: the limit hides it if and only if there are enough tags without those of a registry that failed. |
| `Paging.Pager` | ociclient/lister.go:135-186 | The request loop, over any server, yields `Paged`. |
| `Paging.PagingIsSound` | ociclient/lister.go:135-221 | Over any server whose pages are the first of what is left, with tags added and removed between pages: what is yielded is strictly increasing, after the starting point and was there when its page was served; once the listing has ended, every tag that was there throughout has been yielded. |
| `Paging.UnchangedListing` | ociclient/lister.go:135-221 | Over any such server that answers, with no changes, paging ends and yields the full sorted list, whatever the page size. |
| `TagsPage.TagsGet` | ociserver/tags.go:16-57 | The handler, with its extra tag fetched, its page cut and its refusals, replies as `Serve` says. |
| `TagsPage.ServeCutsTheListing` | ociserver/tags.go:34-57 | Fetching one tag more than asked for and cutting is cutting the whole listing. |
| `TagsPage.ServeIsGood` | ociserver/tags.go:34-57 | A page holds the first of the tags after `last`; a page that is not full holds them all; the next request starts after the page's last tag, by link or without. |
| `TagsPage.TagPagingIsSound` | ociserver/tags.go:34-57 | Paging over this server, with tags added and removed between pages: strictly increasing, present when served, and complete for what was there throughout. |
| `TagsPage.TagPagingIsListing` | ociclient/lister.go:135-221 | Paging over this server with no changes ends with the full sorted list. |
| `TagsPage.FirstPageRefused` | ociserver/tags.go:20-51 | The listing fails as a bad request before anything is yielded exactly when the starting point is not a tag, and as an unknown name exactly when it is one and there is no such repository. |
| `AuthFile.UrlHost` | ociauth/authfile.go:291-301 | The host taken from an address has no slash, so it never looks like a URL itself; which host it is, `UrlHostIsExact` says. |
| `AuthFile.UrlHostIsExact` | ociauth/authfile.go:291-301 | The host taken from an address is the one it spells: after either scheme or none, before the first slash. |
| `AuthFile.SchemeAndPathDoNotMatter` | ociauth/authfile.go:291-301 | For every host without a slash and every path, with http, with https, or with neither, the host is read. |
| `AuthFile.DecodeConfigFile` | ociauth/authfile.go:247-286 | The loop over the map, in a given order, computes `VisitAll`. |
| `AuthFile.VisitKeepsInv` | ociauth/authfile.go:252-284 | One turn of the loop keeps what is known of the entries seen: own entries decoded, derived entries with exactly the sources seen. |
| `AuthFile.DerivedVisitIsIdle` | ociauth/authfile.go:252-265 | Visiting an entry added on the way changes nothing. |
| `AuthFile.OrderDoesNotMatter` | ociauth/authfile.go:214-286 | In every order, looking a host up without a helper gives what the file says about it, or an error in every order; `LookupFindsTheEntry` says what that is, field by field. |
| `AuthFile.LookupFindsTheEntry` | ociauth/authfile.go:208-286 | In every order, a host with an entry of its own, or else with only one URL that spells it, gets that entry's user name and password, decoded where there is an auth field, its identity token as the refresh token and its registry token as the access token; an identity token together with a user name is an error. |
| `AuthFile.LookupByHttpsUrl` | ociauth/authfile.go:208-301 | In particular when the only entry for the host is under an https URL with any path. |
| `AuthFile.LookupFindsNothing` | ociauth/authfile.go:208-286 | A host that nothing spells has empty credentials; any entry that cannot be decoded is an error. |
| `AuthFile.LookupRefusesTwo` | ociauth/authfile.go:231-237 | A host that two URLs spell, and no entry of its own, is an error. |
| `AuthFile.ExplicitWins` | ociauth/authfile.go:274-279 | A host's own entry wins over any URL with that host. |
| `AuthFile.TwoUrlsAreRefused` | ociauth/authfile.go:235-237 | Two URLs for one host without an own entry are refused in every order. |
| `Challenge.ExpectToken` | ociauth/challenge.go:124-132 | The longest token at the start, and the rest. |
| `Challenge.Unescape` | ociauth/challenge.go:146-162 | The escape loop writes only inside its buffer, one shorter than its input, and yields the unescaped value. |
| `Challenge.ExpectTokenOrQuoted` | ociauth/challenge.go:134-167 | A quoted or plain value, as `TokenOrQuoted` says. |
| `Challenge.ParseWWWAuthenticate` | ociauth/challenge.go:78-112 | The parser ends on every input and computes `Parse`. |
| `Challenge.QuotedReadsBack` | ociauth/challenge.go:134-167 | Any value, escaped and quoted, reads back. |
| `Challenge.PrintedParsesBack` | ociauth/challenge.go:78-112 | A scheme and parameters with any non-empty values, each quoted or, if it is a token, plain, printed with any white space around the commas, parse back to the lower-cased scheme and the map of lower-cased names. |
| `Challenge.LowerIsExact` | ociauth/challenge.go:78-112 | Lower-casing changes nothing but the case and leaves no upper-case letter. |
| `Challenge.ParsedIsLower` | ociauth/challenge.go:78-112 | Of every header that parses, scheme and keys come out without an upper-case letter, and the scheme is what the header starts with. |
| `Challenge.CaseDoesNotMatter` | ociauth/challenge.go:78-112 | The case of the scheme and of the keys, the white space, and whether a token is quoted make no difference. |
| `Challenge.ValueReadsBack` | ociauth/challenge.go:134-167 | A plain token or a quoted string is read back as its value, up to what cannot be part of it. |
| `Challenge.MapOfDistinct` | ociauth/challenge.go:97-97 | With distinct lower-case names that map is exactly the list. |
| `Challenge.FromResponse` | ociauth/challenge.go:56-74 | The first basic challenge is chosen, or else the first bearer one; none exactly when there is no such challenge. |
| `Reference.PrintsAsParsed` | ociref/reference.go:203-278 | Every accepted string is printed as it was. |
| `Reference.ParsesAsPrinted` | ociref/reference.go:166-278 | A well-formed reference is read back from its printed form always when it has a host, and without one exactly when its name does not start like a host. |
| `Reference.NameReadAsHost` | ociref/reference.go:203-278 | For instance, a repository like "a.b/c" without a host is not read back. |
| `Reference.DefaultsOnce` | ociref/reference.go:185-201 | The Docker Hub defaults keep a reference well-formed and change nothing when applied again; what they are, the rows of `RelativeReference` say. |
| `Reference.RelativeReadsBack` | ociref/reference.go:185-201 | What a relative reference means, printed, is read back by either parser. |
| `RelativeReference.BareName` | ociref/reference.go:185-201 | A valid name without a slash, with or without tag and digest, means that name in the library of docker.io, and is refused exactly when it is longer than 247. |
| `RelativeReference.PathName` | ociref/reference.go:185-201 | A name with a slash that does not start like a host means that name of docker.io. |
| `RelativeReference.HubName` | ociref/reference.go:185-201 | Each of the four Docker Hub hosts becomes docker.io, with the library for names without a slash. |
| `RelativeReference.ForeignName` | ociref/reference.go:185-201 | Any other host and its repository stay as they are. |
| `RelativeReference.RefusedExactly` | ociref/reference.go:185-201 | Of the texts that parse, exactly those of Docker Hub names without a slash and longer than 247 are refused. |
| `Reference.HostChars` | ociref/reference.go:44-82 | The characters of a host: no slash and no at sign among them. |

## Left out

- HTTP transport, TLS, URL escaping, JSON, base64 and logging: decoded values are inputs.
- The inside of hash functions: an uninterpreted function. `Mem` assumes that equal digests mean equal bytes and that no manifest contains, directly or not, its own digest; `UploadRuns.UploadIsExact` assumes that the hash is injective.
- File system details of the layout registry (renames, temporary files, permissions, saving the index): a map from digest to content and a slice. A failed save is not modelled.
- Time, timeouts and measured bandwidth: `DownloadIO.DeriveChunkSize` takes the elapsed time as a parameter.
- Request routing, the filtering registries, the debugging registry and the token request flow: delegation and plumbing.
- A write concurrent with a commit of the same upload buffer: one writer for each upload.
- Upload sessions are looked at one at a time: creating a session for an unknown id, and several uploads in one repository, are not modelled beyond the commit of `MemOps`.
- The sorting and compacting library functions: `Ordering.SortDistinct` is their result, not their algorithm.
- Iterators stopped early by their consumer: `ScopeIter.Iter`, `Listing.LimitIter` and `Paging.Pager` run to their own end.
- UploadWriter.UploadLargeBlob: the upload session is new, and one digest algorithm is used; the deferred cancellation has no effect in the client.
- LayoutRegistry.StepRefines: a push is taken after its digest and references have been checked; a push refused there changes nothing.
- AuthFile.OrderDoesNotMatter: an error is an error, whatever its text; which helper program runs is a parameter.
- Reference.ParsesAsPrinted: digests are any strings on one line that the digest parser accepts; the parser of digests is a parameter.
- Media types, artifact types and the sorting of referrers, annotations, and the length checks on manifest fields.
- Repository listings and referrers of the unified registry: the same merge with another key.
