# trust-manager, modelled and verified

trust-manager collects CA certificates from ConfigMaps, Secrets, inline PEM texts and a default package
(the *sources* of a Bundle), and writes the resulting trust bundle into a ConfigMap or Secret of every
selected namespace (its *targets*). Bundles (v1alpha1) are being replaced by ClusterBundles (v1alpha2), to
which a controller migrates them. This project models that logic in Dafny and proves what it promises.

| files | what they model |
|---|---|
| `Base64`, `Pem`, `PemLaws` | PEM texts (RFC 7468) with base64 bodies (section 4 of RFC 4648): a line automaton that decodes, a 64-column encoder, what joining texts does to their blocks, and how every document is read |
| `Digests`, `CertPool`, `PoolProperties` | the certificate pool: digest-keyed, filtered, printed in digest order |
| `BundleApi`, `Selectors`, `Packages`, `Sources`, `BuildProperties`, `BuildMeaning` | the Bundle API, default packages, resolving sources into a pool, and what a build means in terms of the cluster |
| `ServerSideApply`, `Status`, `Targets`, `TargetProperties` | fields with owning managers, status conditions, target objects, and which changes of a target are noticed |
| `Reconciler`, `ReconcileProperties`, `Placement`, `Runs`, `Watches` | the Bundle controller: one reconcile, its convergence and safety, where targets are placed, runs of reconciles, and the events that trigger them |
| `ClusterBundleApi`, `Conversion`, `ConversionProperties`, `HubMeaning` | the v1alpha2 API, both directions of the conversion, and what a ClusterBundle means by itself |
| `Webhook`, `AdmissionMeaning`, `Migration`, `InlineMigration` | admission, what it guarantees downstream, and when migration keeps the meaning of a Bundle |
| `Handover`, `HandoverRuns`, `SharedStatus`, `SharedHistory` | the controller that maintains a converted ClusterBundle until a user takes it over, and both controllers writing one status |

How it is modelled. SHA-256, X.509 parsing, the JKS and PKCS#12 encoders and the syntax of labels are
parameters: every result holds for all of them, and collision-freeness is asked for only where it is needed,
on the certificates involved. Time, failing API calls and everything read from the cluster are inputs. Go's
maps, listings and sets are visited in arbitrary order, so that no result depends on an order. A reconcile is
one atomic step with fresh reads. Go's PEM decoder belongs to its standard library: it is modelled line by
line as of Go 1.26, with blanks and carriage returns trimmed at the end of every line. Strings are sequences of
characters that stand for bytes.

Methods are proved against specification functions, and these are not the last word: the modules `BuildMeaning`,
`Placement`, `HubMeaning`, `AdmissionMeaning`, `PemLaws` and `Selectors` say again, in terms of the cluster, the
ClusterBundle, the texts and the labels alone, what is picked, placed, rendered, admitted and read, and prove that
it is the same.

Where a promise of the code holds only under a condition, the condition is exact where that is possible
(`JoinKeepsBlocks`, `FoldKeepsBlocks`, `Retraction`, `RoundTrip`, `ConversionBackIsTotal`,
`AdmittedConvertsBack`, `ReferencesExactly`, `InlineExactly`, `DefaultsExactly`, `DataKeepsMeaning`,
`TargetMeansTheSame`, `RefusedExactly`, `OwnKeysExactly`, `UnnoticedExactly`, `UnnoticedHarmlessExactly`,
`InChargeExactly`, `ConvergesExactly`, `QuietExactly`, `QuietUntilExpiry`, `Progress`, `StopsExactly`,
`CompletesExactly`, `CleanedUp`, `TamperingIsNoticed`, `WithdrawalKeepsContent`, `LastWriteDecides`), and the
inputs on which it fails are proved beside it:

- Inline texts may glue together into a certificate that none of them holds (`GlueChangesMeaning`).
- A key "*" changes its meaning in the migration (`WildcardChangesMeaning`); so does a source with two kinds of
  reference (`PrecedenceDiffers`), and a list with contradicting default-CA sources (`LastDefaultWins`).
- Existing targets are not updated after several changes that alter them (`ProfileChangeMissed`,
  `SwappedFormatsMissed`, `SwappedTemplateMissed`, `SwitchedFormatMissed`, `MovedPasswordMissed`,
  `MovedAnnotationMissed`).
- A space after a header line that ends in "-----BEGIN" takes a block away (`SpaceAfterCutHeader`); no other blank at
  the end of a line matters.
- The two controllers drop each other's conditions, so that they never come to rest on one Bundle
  (`LastWriteDecides`, `NeverAtRest`).

Code and documentation disagree in two places that are modelled, and the model follows the code. The comment on
`AddCertsFromPEM` (pkg/util/cert_pool.go:118) announces an error for a text without unexpired certificates; there
is none (`RefusedTextIsAccepted`). The comment on `CleanupTarget` (pkg/bundle/internal/target/target.go:64) promises true if the resource
has been deleted; the result is always false for a ConfigMap, and true for a Secret whose deletion failed
(`FlagTellsDeletion`).

## Model

| member | source | states |
|---|---|---|
| Base64.DecodeEncode | pkg/util/cert_pool.go:189-205 | decoding the base64 body of a printed certificate gives its bytes back, for every byte string |
| Base64.StandardAlphabet | pkg/util/cert_pool.go:187-195 | the letters of the encoding are those of Table 1 of RFC 4648, in its order, and no other character has a value |
| Base64.EncodesGroups | pkg/util/cert_pool.go:187-195 | every three bytes are carried by four letters as one number, the rest by two or three, filled up with zero bits and padded |
| Base64.TestVectors | pkg/util/cert_pool.go:187-195 | the test vectors of section 10 of RFC 4648 |
| Base64.DecodesExactly | pkg/util/cert_pool.go:124-130 | a text is decoded iff it consists of groups of four letters, of which the last may end in one or two pads |
| PemLaws.DocumentsAreRead | pkg/util/cert_pool.go:124-130 | every document of explanatory text and armored blocks is read as what it says: text is passed over, a body may be cut into any lines, headers are told, and a block with a wrong END line or a bad body is dropped without harm to others |
| PemLaws.LineEndsDoNotMatter | pkg/util/cert_pool.go:119-163 | every text has the same blocks with CRLF line ends, is accepted alike and adds the same certificates to a pool |
| PemLaws.BlanksDoNotMatter | pkg/util/cert_pool.go:124-130 | any blanks, tabs and carriage returns at the ends of any lines change no block, except a space after a header that ends in "-----BEGIN" |
| PemLaws.SpaceAfterCutHeader | pkg/util/cert_pool.go:124-130 | after every such header a space takes the block away |
| PemLaws.PrintsDocument | pkg/util/cert_pool.go:182-196 | a pool is printed as one armored CERTIFICATE block for each certificate in order, its base64 text in lines of 64 columns, without the last newline |
| Pem.DecodeUnrolls | pkg/util/cert_pool.go:124-130 | calling the decoder on the shrinking remainder until it finds no block enumerates exactly the blocks of the text, in order |
| Pem.RunFromAnyState | pkg/util/cert_pool.go:124-130 | reading a text after an unfinished block yields the blocks of the text alone, plus one exactly when the text completes that block |
| Pem.JoinKeepsBlocks | pkg/apis/trust/v1alpha1/conversion.go:114-126 | joining two inline texts keeps their blocks if and only if the second does not complete a block that the first leaves open; otherwise blocks are gained, never lost |
| Pem.FoldKeepsBlocks | pkg/apis/trust/v1alpha1/conversion.go:114-126 | folding any number of inline texts decodes to the concatenation of their blocks if and only if no text completes a block left open before it |
| Pem.TerminatedTextsFold | pkg/apis/trust/v1alpha1/conversion.go:114-126 | terminated texts always fold into the concatenation of their blocks, and the fold is terminated again |
| Pem.GluedTexts | pkg/apis/trust/v1alpha1/conversion.go:119-124 | every block, cut in two before its END line, is no block in either text and comes to life in their fold |
| PemLaws.FoldedIsChained | pkg/apis/trust/v1alpha1/conversion.go:114-126 | all inline texts become one: those that are not empty, in order, with one newline between each and the next in place of one at its end |
| Pem.DecodeEncodeAll | pkg/util/cert_pool.go:187-195 | decoding undoes encoding for any number of blocks one after the other |
| Digests.ListingUnique | pkg/util/cert_pool.go:213-220 | a set of digests has exactly one strictly sorted listing, so that the printed order does not depend on map iteration |
| Digests.Sort | pkg/util/cert_pool.go:213-220 | sorting lists every digest once in strict byte order, whatever the order in which the map is visited |
| Prelude.BeforeExactly | pkg/util/cert_pool.go:218-220 | one digest precedes another iff it has the smaller byte where they first differ (or is a proper prefix) |
| CertPools.SkipsOneDigest | pkg/compat/parse_cert.go:58-90 | a certificate is accepted iff it parses; only the digest with the known fingerprint is skipped, and beside a skipped certificate exactly those that share its digest and fail for their serial number |
| CertPools.CertPool.constructor | pkg/util/cert_pool.go:85-97 | a fresh pool is empty, and its filters pass exactly the certificates that are unexpired and CAs, as far as either is asked for |
| CertPools.CertPool.AppendFilter | pkg/util/cert_pool.go:230-235 | a certificate passes afterwards iff it passed before and passes the new filter |
| CertPools.CertPool.AddCert | pkg/util/cert_pool.go:165-175 | a certificate is stored under its digest iff every filter accepts it, and the result says which |
| CertPools.CertPool.AddCertsFromPEM | pkg/util/cert_pool.go:119-163 | succeeds iff no block is rejected; either way the pool gains exactly the certificates before the first rejected block that pass the filters |
| CertPools.CertPool.Size | pkg/util/cert_pool.go:178-180 | the number of certificates |
| CertPools.CertPool.Certificates | pkg/util/cert_pool.go:212-228 | the certificates in digest order, as many as the pool holds |
| CertPools.CertPool.PEM | pkg/util/cert_pool.go:182-196 | the printed text of the pool, which ParsePrinted reads back and PemIsJoinedSplit takes apart |
| CertPools.CertPool.PEMSplit | pkg/util/cert_pool.go:198-209 | one printed text for each certificate in digest order |
| PoolProperties.OrderedByDigest | pkg/util/cert_pool.go:212-228 | the listing is strictly ordered by digest and holds each certificate of the pool exactly once |
| PoolProperties.ReadTextHolds | pkg/util/cert_pool.go:119-175 | reading a text adds exactly the set of certificates it contributes, whatever the pool held before |
| PoolProperties.SoundAfterReading | pkg/util/cert_pool.go:141-159 | every certificate in a pool filled from texts sits under its digest and parses to itself |
| PoolProperties.AcceptedExactly | pkg/util/cert_pool.go:132-157 | a text is accepted iff every block is a CERTIFICATE without headers that parses, or the known one that is skipped |
| PoolProperties.RefusedTextIsAccepted | pkg/util/cert_pool.go:118-175 | a text of nothing but certificates that the filters refuse, expired ones for instance, is accepted without an error and adds nothing |
| PoolProperties.HoldsUnique | pkg/util/cert_pool.go:165-175 | without digest collisions the set of certificates determines the pool, in whatever order they were added |
| PoolProperties.PemIsJoinedSplit | pkg/util/cert_pool.go:182-209 | the printed pool is its split texts joined by newlines |
| PoolProperties.ParsePrinted | pkg/util/cert_pool.go:119-228 | the printed text of a pool is accepted by a fresh unfiltered pool and gives exactly the same certificates back, despite the trimmed newline |
| PoolProperties.ReadPrintRead | pkg/util/cert_pool.go:119-228 | any text read through any filters, printed and read again gives the same certificates |
| PoolProperties.PrintInjective | pkg/util/cert_pool.go:182-196 | two pools print the same text exactly when they hold the same certificates |
| Packages.Validate | pkg/fspkg/package.go:64-83 | a package is valid iff its bundle has no rejected block and its name and version are not empty |
| Packages.LoadPackage | pkg/fspkg/package.go:86-99 | exactly the decodable, valid packages are loaded, unchanged |
| Sources.AddObject | pkg/bundle/internal/source/source.go:179-210 | one object succeeds iff it has the key (data before binary data), or is no TLS Secret when all keys are asked for, and its texts are accepted; the pool gains exactly what they contribute |
| Sources.AddObjects | pkg/bundle/internal/source/source.go:257-278 | all selected objects, in any order, succeed iff each does, and contribute the union |
| Sources.AddReference | pkg/bundle/internal/source/source.go:142-212 | a failing read is an error other than not found, a reference by name needs the object, one by selector may select none; then as for the objects |
| Sources.AddSource | pkg/bundle/internal/source/source.go:74-99 | the first kind that is set decides; the pool gains exactly what the source's texts contribute |
| Sources.BuildBundle | pkg/bundle/internal/source/source.go:63-108 | succeeds iff every source does and some certificate is left, with exactly the certificates of all sources and the right package identity; fails only with an error that some source calls for, or for lack of certificates; panics only on a source without a type |
| BuildProperties.BuildIsCanonical | pkg/bundle/internal/source/source.go:63-108 | reordering or repeating sources changes neither success, nor the package identity, nor the printed text |
| BuildProperties.BuildIsSoundAndComplete | pkg/bundle/internal/source/source.go:63-280 | a certificate is in a built pool iff it passes the filters and is a block of some selected text |
| BuildProperties.FailuresExplained | pkg/bundle/internal/source/source.go:63-280 | there is an error that a build may end with exactly when it cannot succeed |
| BuildProperties.VerdictIgnoresFilters | pkg/bundle/internal/source/source.go:97-99 | whether adding a source fails, and the errors it may fail with, depend neither on the filters nor on the time |
| BuildProperties.ValidPackageBuilds | pkg/fspkg/package.go:64-83 | with a package that was accepted when loaded, a build that fails has another reason than its default-CA source, under any filters |
| BuildProperties.ResolvedLater | pkg/util/cert_pool.go:48-60 | at a later time exactly the unexpired of the resolved certificates are left, so that nothing changes iff none has expired, and never without the filter |
| BuildProperties.BuildableAt | pkg/bundle/internal/source/source.go:97-105 | what built once builds at any other time iff some certificate is left |
| Selectors.SelectorMeans | pkg/bundle/bundle.go:341-352 | a selector can be used iff its operators have the values they need, and then it matches exactly the labels that carry what In, NotIn, Exists, DoesNotExist and the listed labels call for |
| BuildMeaning.AcceptedMeans | pkg/util/cert_pool.go:132-157 | a text is accepted iff each block is a CERTIFICATE without headers that parses, or the one with the known fingerprint that fails for its negative serial number |
| BuildMeaning.SourceErrorsMean | pkg/bundle/internal/source/source.go:110-280 | the errors that adding a source can end with are exactly those with a cause in the cluster: a failing read or unusable selector, a missing object, key or package, all keys of a TLS Secret, a picked text that is not accepted |
| BuildMeaning.BuildsExactly | pkg/bundle/internal/source/source.go:63-280 | a build succeeds iff every source has a kind and no cause to fail, and some certificate that passes the filters stands in an entry that a source picks: of the named or selected objects, at its key in the data or else in the binary data, or any entry |
| BuildMeaning.PoolExactly | pkg/bundle/internal/source/source.go:63-280 | a certificate is in a built pool iff it passes the filters and stands in an entry that a source picks from the cluster |
| BuildMeaning.ReportedPackage | pkg/fspkg/package.go:48-52 | the package is reported by name, version and hash, iff there is one and a source uses it |
| BuildMeaning.PackageMeans | pkg/fspkg/package.go:64-83 | a package is valid iff its text is accepted and it has a name and a version |
| ServerSideApply.AppliedAsListed | pkg/bundle/internal/ssa_client/patch.go:26-42 | after a forced patch the manager owns exactly the listed fields, with the listed values |
| ServerSideApply.ListedFieldIsShared | pkg/bundle/internal/ssa_client/patch.go:26-42 | the owners of a listed field are the manager and those who owned it with the same value before |
| ServerSideApply.UnlistedFieldGoes | pkg/bundle/internal/ssa_client/patch.go:26-42 | a field that is not listed goes iff the manager owned it alone |
| ServerSideApply.ApplyTwice | pkg/bundle/internal/ssa_client/patch.go:26-42 | applying a patch twice is applying it once |
| ServerSideApply.ForeignFieldSurvives | pkg/bundle/internal/ssa_client/patch.go:26-42 | another manager's field survives every patch that does not list it |
| ServerSideApply.WithdrawalKeepsContent | pkg/bundle/controller/bundle_controller.go:139-148 | an empty patch never conflicts, leaves the manager without fields, and keeps the content iff the manager owned no field alone |
| Status.BundleHasCondition | pkg/bundle/util.go:28-44 | finds the condition of the type and compares everything but the transition time |
| Status.FindTransitionTime | pkg/bundle/util.go:55-68 | the transition time is carried over exactly when the existing condition has the same status |
| Status.SetBundleCondition | pkg/bundle/util.go:50-88 | overwrites the condition of that type in the patch, or appends it, with that transition time |
| Status.SetDefaultCAVersion | pkg/bundle/util.go:93-118 | reports the required version, and says whether it differs from the current one |
| Targets.AppliedIsCurrent | pkg/bundle/internal/target/target.go:252-288 | an applied target holds the planned entries and needs no update |
| Targets.CleanedUp | pkg/bundle/internal/target/target.go:65-98 | cleaning up leaves an object exactly when it holds somebody else's data, and doing it again changes nothing |
| Targets.TamperingIsNoticed | pkg/bundle/internal/target/target.go:252-320 | an edit by another manager is noticed exactly when it changes or removes a managed entry, although values are never compared |
| TargetProperties.ChangeIsNoticed | pkg/bundle/internal/target/target.go:252-288 | a current object needs an update for another text or target exactly if the hashed text or the key set differs, short of a hash collision |
| TargetProperties.UnnoticedExactly | pkg/bundle/internal/target/target.go:400-428 | a change of target is unnoticed for all hashes and texts iff the joined passwords and metadata and the key set stay the same |
| TargetProperties.HashedText | pkg/bundle/internal/target/target.go:400-428 | what is hashed after the certificates: both passwords, then annotations and labels with their values, sorted by the bytes of their keys |
| TargetProperties.OneValueIsNoticed | pkg/bundle/internal/target/target.go:400-428 | another value for one annotation or label, or another password, alone always leaves another mark |
| TargetProperties.RenderedAlikeExactly | pkg/bundle/internal/target/target.go:430-451 | two targets are rendered alike by all encoders iff they have the same keys in the same roles, passwords and effective profile |
| HubMeaning.RenderedExactly | pkg/bundle/internal/target/target.go:430-451 | a target whose entries have keys of their own is rendered into the certificates, the JKS store and the PKCS#12 store of the profile or LegacyRC2 under their keys and nothing else, or not at all |
| TargetProperties.UnnoticedHarmlessExactly | pkg/bundle/internal/target/target.go:252-288 | a harmless change is never noticed; an unnoticed one is harmless iff it keeps the roles of the keys, the metadata and the length of the JKS password |
| TargetProperties.MissedExactly | pkg/bundle/internal/target/target.go:252-288 | a missed change is one that nothing gives away and that alters the metadata or what some encoder renders |
| TargetProperties.ProfileChangeMissed | pkg/bundle/internal/target/target.go:400-428 | another PKCS#12 profile is missed |
| TargetProperties.SwappedFormatsMissed | pkg/bundle/internal/target/target.go:272-288 | exchanging the keys of the two formats is missed |
| TargetProperties.SwappedTemplateMissed | pkg/bundle/internal/target/target.go:272-288 | exchanging the key of the certificates with the JKS key is missed |
| TargetProperties.SwitchedFormatMissed | pkg/bundle/internal/target/target.go:400-428 | replacing the JKS format by PKCS#12 with the same key and password is missed |
| TargetProperties.MovedPasswordMissed | pkg/bundle/internal/target/target.go:405-410 | moving the end of the JKS password to the front of the PKCS#12 password is missed |
| TargetProperties.MovedAnnotationMissed | pkg/bundle/internal/target/target.go:415-422 | moving the start of an annotation's value to the end of its key is missed |
| Reconciler.BundleController.ApplyTarget | pkg/bundle/internal/target/target.go:119-180 | applies iff the target is missing or not current and can be rendered, panics on a missing PKCS#12 password, says which, and changes nothing otherwise |
| Reconciler.BundleController.CleanupTarget | pkg/bundle/internal/target/target.go:65-98 | withdraws the managed entries and deletes the object iff no data is left, as far as no call fails; fails iff the patch fails, or the deletion of an emptied object; the flag is set exactly for emptied Secrets |
| Reconciler.FlagTellsDeletion | pkg/bundle/internal/target/target.go:62-98 | the flag tells whether the object is gone iff there was nothing to delete, a Secret was deleted, or deleting a ConfigMap failed |
| Reconciler.BundleController.CleanupKind | pkg/bundle/bundle.go:216-265 | cleans up exactly the labelled, controlled, undesired targets of the kind that are not being deleted |
| Reconciler.BundleController.CleanupAll | pkg/bundle/bundle.go:212-266 | the same for every enabled kind, up to the first kind that cannot be listed |
| Reconciler.BundleController.ApplyTargets | pkg/bundle/bundle.go:268-297 | applies desired targets in any order up to the first failure, and says whether any was changed |
| Reconciler.BundleController.FindDesired | pkg/bundle/bundle.go:163-209 | the desired set: requested kinds in selected, non-terminating, allowed namespaces |
| Reconciler.BundleController.Finish | pkg/bundle/bundle.go:299-338 | a status patch and an event exactly when there is news |
| Reconciler.BundleController.SyncTargets | pkg/bundle/bundle.go:211-338 | cleanup, application and status of a reconcile whose sources are resolved |
| Reconciler.BundleController.ReconcileBundle | pkg/bundle/bundle.go:86-339 | one whole reconcile: what it changed, which condition with which reason it reports, whether it returns an error (for failing sources unless one was not found), and why it stopped |
| Reconciler.BundleController.Reconcile | pkg/bundle/bundle.go:68-101 | a request for a missing Bundle does nothing, a failing read is an error that changes nothing, and otherwise the status patch is stored unless that fails, which is an error |
| ReconcileProperties.DesiredAfterwards | pkg/bundle/bundle.go:268-297 | after success every desired target exists, is current, and is owned unless its deletion had begun |
| ReconcileProperties.Progress | pkg/bundle/bundle.go:86-339 | when no call fails and every format can be rendered, a reconcile succeeds iff its sources build, its target kinds are enabled and its selector is valid |
| ReconcileProperties.StopsExactly | pkg/bundle/bundle.go:103-232 | where a reconcile stops is decided by the first check that fails: sources, disabled Secret targets, selector, list of namespaces, lists of targets, ConfigMaps first |
| ReconcileProperties.RetriedExactly | pkg/bundle/bundle.go:103-338 | it returns an error unless it succeeded, misses a source or found disabled Secret targets, and records one event unless it panicked or had no news |
| ReconcileProperties.ReportedCondition | pkg/bundle/bundle.go:103-338 | a status patch lists one Synced condition, true iff the reconcile succeeded, with the reason for where it ended, the generation, and the time since when that status holds; only success reports another package version |
| ReconcileProperties.Convergence | pkg/bundle/bundle.go:163-297 | after success the owned targets are the desired ones that are not being deleted, and the stale ones in which others still have data |
| ReconcileProperties.ConvergesExactly | pkg/bundle/bundle.go:163-297 | the owned targets are exactly the desired set iff no desired target was being deleted and no stale one held foreign data |
| ReconcileProperties.OthersUntouched | pkg/bundle/bundle.go:234-265 | in every outcome, a resource neither desired nor labelled for and controlled by the bundle keeps its exact state |
| ReconcileProperties.ForeignDataSurvives | pkg/bundle/internal/target/target.go:65-98 | in every outcome, another owner's entry keeps its value and other owners unless it is an entry of a desired target |
| Placement.PlacedWhereItBelongs | pkg/bundle/bundle.go:163-297 | after success every requested kind exists and is current in each namespace that exists, is not terminating, is listed if there is a list, and whose labels satisfy the selector if there is one |
| Placement.InChargeExactly | pkg/bundle/bundle.go:163-297 | the bundle is then in charge of exactly those targets, but for ones that were being deleted, and of misplaced ones in which others have entries |
| Placement.NothingMisplaced | pkg/bundle/bundle.go:184-265 | in every outcome nothing is created or rewritten in a terminating, unlisted or unselected namespace; only what the bundle is in charge of is withdrawn there |
| Placement.MisplacedIsWithdrawn | pkg/bundle/bundle.go:234-265 | after success a misplaced target that the bundle was in charge of is gone, or holds entries of others only |
| Placement.CreatedAsRendered | pkg/bundle/internal/target/target.go:119-180 | a target that was missing holds exactly the rendered entries afterwards, all owned by the controller |
| ReconcileProperties.StatusIsKnown | pkg/bundle/bundle.go:299-338 | the stored status reads as in sync after every successful reconcile, whether or not it returned a patch |
| ReconcileProperties.Quiescence | pkg/bundle/bundle.go:216-338 | a second reconcile with the same inputs at any other time, when the same certificates are resolved or no target is desired and some are, applies nothing, records no event, returns no patch and changes no target |
| ReconcileProperties.QuietExactly | pkg/bundle/bundle.go:86-339 | short of a collision, a second reconcile succeeds without applying or reporting anything iff the same certificates are resolved, or some are and no target is desired |
| ReconcileProperties.DueExactlyOnExpiry | pkg/util/cert_pool.go:48-60 | at a later time that is so iff no resolved certificate has expired since, or no target is desired and one is left |
| ReconcileProperties.QuietUntilExpiry | pkg/bundle/bundle.go:86-339 | a later second reconcile does nothing exactly until a resolved certificate expires, or for a Bundle without targets until all have |
| Runs.RunsAreFaithful | pkg/bundle/bundle.go:103-161 | in every state of every run of this controller the status is that of the last write, failing writes keep the package version, and transition times name the start of the current stretch of equal status |
| Runs.SyncedIsEarned | pkg/bundle/bundle.go:268-338 | any Synced=True was written by a step that resolved all sources and left every then desired target current, for the generation it names |
| Runs.StretchIsMaximal | pkg/bundle/util.go:55-68 | the stretch of equal status that transition times refer to is maximal |
| Runs.MarksGrow | pkg/bundle/util.go:50-88 | carrying the time over exactly on equal status keeps transition times right |
| Watches.AnySourceSelects | pkg/bundle/controller.go:220-240 | true iff some source of the kind selects the object |
| Watches.EnqueueRequests | pkg/bundle/controller.go:253-272 | the requests name exactly the Bundles that the event wakes up |
| Watches.NoMissedSourceEvent | pkg/bundle/controller.go:220-318 | if changing one source object changes whether a Bundle builds, its certificates or its package, the old or the new object wakes it up |
| Watches.NoMissedNamespaceEvent | pkg/bundle/controller.go:207-216 | if a namespace's change, creation or deletion changes the desired targets of a Bundle, the old or the new namespace wakes it up |
| AdmissionMeaning.WakesExactly | pkg/bundle/controller.go:294-318 | an event on an object wakes a Bundle with an admitted reference iff the reference reads that object |
| AdmissionMeaning.NamespaceWakesExactly | pkg/bundle/controller.go:207-216 | an event on a namespace wakes a Bundle iff its labels satisfy a usable selector, or there is none |
| Conversion.HubContext.ConvertSource | pkg/apis/trust/v1alpha1/conversion.go:95-136 | one source: its reference, the inline text appended to the context, the provider overwritten |
| Conversion.HubContext.ConvertSources | pkg/apis/trust/v1alpha1/conversion.go:75-93 | the references in order without empty ones, all inline texts folded, the last provider |
| Conversion.HubContext.ConvertTarget | pkg/apis/trust/v1alpha1/conversion.go:138-192 | the templates with their format entries, an explicit selector, and the JKS key noted in the annotations |
| Conversion.ConvertTo | pkg/apis/trust/v1alpha1/conversion.go:41-73 | filling the destination step by step through the shared context gives exactly the ClusterBundle that ThereAndBack, Retraction and RoundTrip speak about |
| HubMeaning.TargetMeansTheSame | pkg/apis/trust/v1alpha1/conversion.go:138-210 | a converted Bundle has the same targets with the same metadata and keys, and each, ConfigMap and Secret, holds for all encoders and certificates what v1alpha1 renders (with the empty password where none is given), iff no leftover annotation marks the PKCS#12 format |
| HubMeaning.SelectsTheSame | pkg/apis/trust/v1alpha1/conversion.go:187-190 | its selector, which v1alpha2 demands, selects the same namespaces |
| HubMeaning.SourcesMeanTheSame | pkg/apis/trust/v1alpha1/conversion.go:75-136 | as a ClusterBundle, admitted sources without wildcard keys and glueing texts build iff they did, into the same certificates: by references of their kind, "*" for all keys, inline text and the System provider |
| Conversion.FindPemKey | pkg/apis/trust/v1alpha1/conversion.go:339-345 | the key of the first PEM entry |
| Conversion.FindFormats | pkg/apis/trust/v1alpha1/conversion.go:301-323 | the additional formats that the scan with its early stop finds, and its panic |
| Conversion.ConvertFrom | pkg/apis/trust/v1alpha1/conversion.go:212-337 | the same for the way back; the result is missing exactly when the scan for formats panics |
| HubMeaning.HubSourcesMean | pkg/apis/trust/v1alpha1/conversion.go:237-284 | the sources that a schema-conforming ClusterBundle is converted back to build iff the ClusterBundle calls for it, into the certificates it calls for |
| HubMeaning.BackMeansTheSame | pkg/apis/trust/v1alpha1/conversion.go:286-350 | a target that v1alpha1 can express is converted back without a panic iff its JKS store has a password, and then v1alpha1 renders for it what the ClusterBundle calls for |
| ConversionProperties.HubSourcesSurvive | pkg/apis/trust/v1alpha1/conversion.go:237-284 | every schema-conforming ClusterBundle gets its references, inline text and provider back after a trip through v1alpha1 |
| ConversionProperties.FormatsRestored | pkg/apis/trust/v1alpha1/conversion.go:291-323 | scanning the entries of one or two converted targets finds the formats that went in, or takes PKCS#12 for JKS where the annotation says so |
| ConversionProperties.ConversionBackIsTotal | pkg/apis/trust/v1alpha1/conversion.go:303-319 | converting back panics exactly on a target with a PKCS#12 format that has no password and the annotated JKS key |
| ConversionProperties.ThereAndBack | pkg/apis/trust/v1alpha1/conversion.go:41-350 | what comes back: same templates and status, explicit selector and profile, regrouped sources, no JKS annotation |
| ConversionProperties.Retraction | pkg/apis/trust/v1alpha1/conversion.go:65-350 | converting, back and again gives the same ClusterBundle if and only if the format keys differ, no leftover annotation interferes and formats come with a target |
| ConversionProperties.RoundTrip | pkg/apis/trust/v1alpha1/conversion.go:75-350 | a Bundle comes back unchanged if and only if it is normal: plain references, then one inline text, then one default-CA source, with explicit selector and profile |
| ConversionProperties.BackIsNormal | pkg/apis/trust/v1alpha1/conversion.go:237-337 | whatever comes back is normal, so that a second trip changes nothing |
| Webhook.ValidateReference | pkg/webhook/validation.go:69-111 | reports exactly the rules the reference breaks: name or selector, key or all keys, not both, and a usable selector |
| Webhook.ValidateSource | pkg/webhook/validation.go:64-132 | one source: exactly its violations, and what it adds to the two counts |
| Webhook.ValidateSources | pkg/webhook/validation.go:61-143 | reports exactly the violations of each source, no source that counts, and too many mentions of default CAs |
| Webhook.ValidateOwnTarget | pkg/webhook/validation.go:145-167 | reports exactly the sources that name the bundle's own target object and key |
| Webhook.ValidateFormats | pkg/webhook/validation.go:169-204 | reports exactly the formats whose key is taken, by a template or by the format before |
| Webhook.ReservedKeys | pkg/webhook/validation.go:226-234 | finds exactly the keys with a reserved prefix |
| Webhook.ValidateMetadata | pkg/webhook/validation.go:223-249 | reports exactly the reserved annotations and labels, and bad syntax |
| Webhook.Validate | pkg/webhook/validation.go:52-220 | reports exactly the violations of the Bundle, and none exactly for the admitted ones |
| Webhook.NoViolationIsAdmission | pkg/webhook/validation.go:52-220 | a Bundle without a single violation is one whose sources, references, keys and metadata are as admission describes them, and conversely |
| AdmissionMeaning.AdmitsExactly | pkg/webhook/validation.go:52-250 | the rules told once more, reference by reference and target by target, with the meaning of selectors: exactly the Bundles that keep them are admitted |
| AdmissionMeaning.ReportsExactly | pkg/webhook/validation.go:52-250 | a violation is reported iff its rule is broken at the place that it names: the source, the kind of reference or target, the key, the counts |
| AdmissionMeaning.OwnKeysExactly | pkg/webhook/validation.go:169-204 | no format repeats a key iff each entry of a rendered target is the one that is meant to be under its key, whatever the encoders give |
| AdmissionMeaning.NothingAskedNothingBuilt | pkg/webhook/validation.go:134-136 | sources of which none counts never build |
| Migration.AdmittedConvertsBack | pkg/apis/trust/v1alpha1/conversion.go:303-319 | an admitted Bundle converts back without a panic unless a leftover annotation marks a PKCS#12 format without a password |
| Migration.AdmittedReconciles | pkg/bundle/internal/source/source.go:93-95 | a reconcile of an admitted Bundle neither panics on a source nor stops at the namespace selector; only a PKCS#12 format without a password can still make it panic |
| Migration.AdmittedReferenceSelects | pkg/webhook/validation.go:69-111 | an admitted reference fails to select only when it names a missing object, and takes no text from an object only when it wants all keys of an empty one |
| Migration.AdmittedDataIsAMap | pkg/apis/trust/v1alpha1/conversion.go:138-200 | the entries of a converted target of an admitted Bundle are non-empty with distinct keys |
| Migration.ReferenceKeepsMeaning | pkg/apis/trust/v1alpha1/conversion.go:264-284 | a reference takes the same texts from every object after migration if and only if its key is not "*" |
| Migration.FoldContributes | pkg/apis/trust/v1alpha1/conversion.go:114-126 | unglued inline texts fold into one that is accepted iff all are and contributes what they contribute |
| Migration.SourcesKeepMeaning | pkg/bundle/internal/source/source.go:63-108 | migrated sources build iff the original ones do, into the same certificates and with the same package |
| Migration.SelectionKeepsMeaning | pkg/bundle/bundle.go:341-352 | the migrated target wants the same resources in every cluster |
| Migration.DataKeepsMeaning | pkg/apis/trust/v1alpha1/conversion.go:202-210 | the rendered data is the same for all encoders if and only if no leftover annotation marks the PKCS#12 format as JKS |
| Migration.MigrationPreservesMeaning | pkg/apis/trust/v1alpha1/conversion.go:41-350 | an admitted, portable Bundle builds, selects, renders and is found up to date in the same way after its migration |
| Migration.GlueChangesMeaning | pkg/apis/trust/v1alpha1/conversion.go:119-124 | for every environment and every certificate it accepts: an admitted list of two inline texts that does not build, and builds after its migration |
| Migration.WildcardChangesMeaning | pkg/apis/trust/v1alpha1/conversion.go:264-284 | every reference by the key "*" that can be read and select anything: a cluster in which it does not build, and builds after its migration |
| Migration.PrecedenceDiffers | pkg/apis/trust/v1alpha1/conversion.go:95-113 | every source with both kinds of reference that reaches anything: a cluster in which exactly one of the build and the migrated build succeeds |
| Migration.ReferencesExactly | pkg/apis/trust/v1alpha1/conversion.go:95-113 | a source of references builds alike before and after migration in every cluster iff it has one kind of reference and no wildcard key, or reaches nothing |
| InlineMigration.InlineExactly | pkg/apis/trust/v1alpha1/conversion.go:114-126 | a list of inline texts builds alike before and after migration, into the same certificates, in every environment iff one of its blocks can never be a certificate, or the fold has no other blocks, or there are none and one of the fold can never be a certificate |
| Migration.DefaultsExactly | pkg/apis/trust/v1alpha1/conversion.go:127-133 | the package identity survives migration iff the sources use the package exactly when the last word on default CAs is to use it |
| Migration.LastDefaultWins | pkg/apis/trust/v1alpha1/conversion.go:127-133 | with contradicting default-CA sources the build reports the package, the migrated Bundle does not |
| Handover.ConvertToPatch | pkg/bundle/controller/bundle_controller.go:155-168 | the patch of a Bundle, unless it is refused: exactly the fields of the converted ClusterBundle, with the JKS key as only annotation and the owner reference |
| Handover.PatchListsExactly | pkg/bundle/controller/bundle_controller.go:155-168 | a patch lists exactly the fields that the converted ClusterBundle has, with their values: references, provider, inline text, selector, each data entry by its key, metadata, the JKS annotation and the owner reference, and no other |
| HubMeaning.RefusedExactly | pkg/apis/trustmanager/v1alpha2/types_cluster_bundle.go:214-219 | the patch is refused iff two entries of one of its targets share a key |
| HandoverRuns.CompletesExactly | pkg/bundle/controller/bundle_controller.go:63-95 | a reconcile completes iff no call fails and the patch of an unmarked ClusterBundle is not refused; before the patch is through nothing changes, before the status is written no condition |
| Handover.BundleReconciler.Reconcile | pkg/bundle/controller/bundle_controller.go:63-95 | one reconcile changes the ClusterBundle and the conditions as the step does that the runs are made of, also when a call fails half-way |
| Handover.BundleReconciler.ApplyClusterBundle | pkg/bundle/controller/bundle_controller.go:97-113 | the converted Bundle is force-applied unless the call fails or the patch is refused |
| Handover.BundleReconciler.UnmanageClusterBundle | pkg/bundle/controller/bundle_controller.go:139-148 | the empty patch is applied without a conflict |
| Handover.BundleReconciler.ApplyBundleCondition | pkg/bundle/controller/bundle_controller.go:115-137 | the condition becomes the only one that the controller lists |
| HandoverRuns.PatchNeverMigrates | pkg/bundle/controller/bundle_controller.go:161-167 | whatever annotations a Bundle has, only the JKS key is ever applied, never the migrated mark |
| HandoverRuns.RunsKeepInv | pkg/bundle/controller/bundle_controller.go:63-168 | in every run the controller never owns the mark, is the only owner of its two conditions, and lists at most one |
| HandoverRuns.OnlyUsersMigrate | pkg/bundle/controller/bundle_controller.go:150-153 | in every run only users set and remove the migrated mark |
| HandoverRuns.UserFieldsSurvive | pkg/bundle/controller/bundle_controller.go:71-74 | once marked, no reconcile changes or removes a field of another owner, or adds one |
| HandoverRuns.ManagedFieldsAreForced | pkg/bundle/controller/bundle_controller.go:112 | before that, a reconcile overrides another owner's field exactly if the converted ClusterBundle has another value there |
| HandoverRuns.MirrorsTheBundle | pkg/bundle/controller/bundle_controller.go:97-113 | an unmarked ClusterBundle ends up with the controller owning exactly the fields of the converted ClusterBundle, with the values they have there |
| HandoverRuns.HandedOver | pkg/bundle/controller/bundle_controller.go:71-82 | after one withdrawal the controller owns no field in any later state of the run and reconciles leave the ClusterBundle unchanged, while the mark stays |
| HandoverRuns.ContentHandedOver | pkg/bundle/controller/bundle_controller.go:139-148 | the withdrawal keeps the content iff the controller owned no field alone, and removes the owner reference unless somebody else owns it |
| HandoverRuns.ExactlyOneCondition | pkg/bundle/controller/bundle_controller.go:71-94 | from the first completed reconcile on, exactly one of Deprecated and Migrated is present in every state of a run in which nobody else writes or drops them |
| HandoverRuns.ConditionTellsTheMark | pkg/bundle/controller/bundle_controller.go:71-94 | which one it is tells whether the ClusterBundle was marked; it is true, names the reason and the generation |
| HandoverRuns.OtherConditionsDropped | pkg/bundle/controller/bundle_controller.go:125-136 | a completed reconcile drops every other condition that only this field manager owned, Synced included |
| HandoverRuns.SecondReconcile | pkg/bundle/controller/bundle_controller.go:63-137 | a second reconcile of an unchanged Bundle changes nothing |
| SharedStatus.LastWriteDecides | pkg/bundle/bundle.go:68-84 | in every run of both controllers, of Synced, Deprecated and Migrated exactly the one is present that was written last |
| SharedStatus.VersionGoesWithSynced | pkg/bundle/controller/bundle_controller.go:125-136 | in every run of both controllers a package version is reported only while the last status write was the Bundle controller's |
| SharedStatus.ExactlyOneMeans | pkg/bundle/controller/bundle_controller.go:115-137 | exactly one of Deprecated and Migrated is present iff the last status write was one of the hand-over |
| SharedStatus.WriteKeepsExactlyOne | pkg/bundle/internal/ssa_client/patch.go:26-42 | a status write of the shared manager keeps exactly one migration condition iff it writes one, so that the Bundle controller's never does |
| SharedStatus.SyncedIsRenewed | pkg/bundle/bundle.go:299-338 | where Synced was dropped, every successful reconcile writes it again and dates it anew |
| SharedStatus.NeverAtRest | pkg/bundle/controller/bundle_controller.go:115-137 | in no state of any run can both controllers rest: if one has no news, the other changes the conditions |
| SharedHistory.SyncedIsEarned | pkg/bundle/bundle.go:268-338 | in every run of both controllers a present Synced condition is the report of the last status write; if true, that step resolved all sources and left every target desired then in place and current |
| SharedHistory.WritesAreDated | pkg/bundle/util.go:50-88 | every written Synced condition is dated by the first write of its stretch: of the Bundle controller, of equal status, with no write of the hand-over between |
| SharedHistory.SyncedIsDated | pkg/bundle/util.go:50-88 | a present Synced condition is dated by the first write since the last write of the hand-over or the last change of status |

## Left out

- JKS and PKCS#12 byte encoding, X.509 and ASN.1 parsing, SHA-256 and JSON decoding belong to libraries; they are parameters.
- PKCS#12 encoding is not deterministic in the original; here the encoders are functions, and no result speaks about re-encoding.
- Targets: the text data and binary data of a ConfigMap are one map, and the labels and annotations that a target template adds are not fields of the target object; they only enter its hash and the comparison of two targets.
- Reconciler: the target cache lists the allowed namespaces only, so that targets elsewhere are not cleaned up; this is part of the model.
- Sources: ConfigMap entries whose binary value is null, and which of several errors is returned.
- HubMeaning: wildcards inside longer keys, which the v1alpha2 API describes and no code of this version reads; only "*" is a wildcard.
- HubMeaning.BackMeansTheSame: is about targets that v1alpha1 can express; several stores of one kind, a second PEM entry or different stores in the two targets have no v1alpha1 form.
- PemLaws.BlanksDoNotMatter: goes one way; whether the space after a header that ends in "-----BEGIN" matters depends on where the header stands (PemLaws.SpaceAfterCutHeader says where it does).
- Pem: a BEGIN marker directly after "-----END " on one line starts a block in Go's decoder; here that line only ends one.
- Webhook: the syntax of labels, annotations and selectors is a parameter; paths and texts of violations are not modelled, nor several errors about one selector.
- Sources and Reconciler: a selector with malformed label keys or values is an error in the original; here only operators and their values make one unusable (the webhook rejects the others).
- Conversion: error returns for values of the wrong type, and the annotation map that source and destination share in the original; nil and empty maps are one value here.
- Handover: schema validation, a second controlling owner reference and every other rejection by the API server count as a failing call; duplicate entry keys are modelled as a refusal.
- Handover: the controller is registered by the integration tests of this version only (test/integration/clusterbundle/env.go:84).
- HandoverRuns.ExactlyOneCondition: is about runs in which nobody else writes or drops the two migration conditions; with the Bundle controller beside it, which drops both, SharedStatus.LastWriteDecides says what is present.
- Runs.RunsAreFaithful: is about runs in which nobody else writes or drops the Synced condition or the package version; the controller of the hand-over drops both (SharedStatus.LastWriteDecides, SharedStatus.VersionGoesWithSynced), and then transition times start anew (SharedStatus.SyncedIsRenewed); SharedHistory says what holds then.
- Loading packages from files, copying packages, cache namespaces and the watches on owned targets (pkg/bundle/controller.go:165-198) are plain plumbing without a decision of their own.
- Interleavings inside one reconcile (stale caches, edits between a read and a patch), leader election, cache set-up, finalizers, logging, event texts and command-line options.
- Migration.MigrationPreservesMeaning: goes one way; its conditions are exact one by one (ReferencesExactly, InlineMigration.InlineExactly, DataKeepsMeaning), but together they are not necessary, since a Bundle that never builds keeps its meaning without them.
