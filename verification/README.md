# Evydence policy tooling: a verified model

Evydence keeps its supply-chain rules in Python scripts under `scripts/`. This project models the logic of those
scripts in Dafny and proves what they promise. Every theorem is stated for all inputs. Nothing here executes the
scripts; `dafny verify dfyconfig.toml` checks the whole project.

Failures of the scripts (raised errors) are `None`, `Invalid` or a `false` flag, and the contracts say exactly when
they occur. What the scripts ask of the outside world (hash functions, HTTP replies, Git, clocks, Unicode tables,
regular expressions) is a parameter, so that a theorem holds whatever it answers.

## The parts

| files | what is proved |
|---|---|
| `Layers`, `ImportGraph`, `ForbiddenRoute`, `ImportCycles`, `Architecture` | the import check: breadth-first search finds the shortest and alphabetically first forbidden route, depth-first search reports a cycle for every cycle of the graph that shares an import with it, and `analyze` names every violation and nothing else |
| `GitBytes`, `GitTree`, `NestedTree`, `GitListing`, `TreeDiff` | a reply is accepted exactly when it is the flat listing of a nested Git tree with the expected id, so that two accepted replies are the same up to a collision that is exhibited at one folder; a paged list of changed files is accepted exactly when it accounts for the difference of two trees, and applying it in any order gives the new tree |
| `SpdxGrammar`, `SpdxText`, `LicenseRules`, `PolicyVocabulary` | a text is accepted exactly when it writes a tree of the grammar, however it is spaced, and its verdict is the meaning of that tree under the allow-lists, whatever the letter case; acceptance does not depend on the lists |
| `Policy`, `Assessment`, `Advisories`, `Admission`, `AdmissionOutcome` | waivers over time, the verdict on one component, all-or-nothing paged observation, the join of two sources of findings as a homomorphism, that nothing escapes admission, and exactly when the joined decision is reached, passes, and what it reports |
| `LineText`, `ChangelogLens`, `ChangelogText`, `ChangelogRender`, `ChangelogContents`, `ChangelogWording`, `Changelog`, `ChangelogExact` | the changelog as a lens: what is written is read back, history is kept, a second update equals the last one alone on exactly the documents that settle; exactly when an update succeeds, and that the text shows every fragment |
| `DeliveryHistory`, `DeliveryOutcome`, `DeliveryLaws`, `DeliveryPaths`, `DeliveryChangelog` | exactly when an inspection succeeds and what it reports; every delivery of the first-parent chain carries a note or an approved exemption, published notes keep their content along the whole chain, and what is reported can be written and read back |
| `ActionClosure` | the worklist of nested Actions computes the least closure, with every edge recorded, and succeeds exactly when some closure is within the budgets |
| `ReleaseSbom`, `ImageReference`, `ImageSpelling` | two canonical forms: the public component list and the image reference, with exactly the texts that are accepted for it |
| `Ordering`, `Text` | code-point order, sorting, splitting and joining |

## Where a promise fails

Three properties that a reader would expect do not hold of the code as it stands. The model keeps the code, shows an
input, and proves when the property holds.

- A changelog that has a historical heading with trailing blanks, or that spells the historical heading only inside
  its Unreleased section, is accepted once and then changes or is refused on the next update.
  `Changelog.SecondUpdateWins` gives the exact condition and `Changelog.StrayHeadingIsNotSettled` a document.
- `inspect` does not always hold the chain of deliveries to what the previous release published: it compares each
  delivery with its parent, and the base with the head. The notes are kept exactly where the commit the chain starts
  from already held them (`DeliveryLaws.PublishedIsAsReleased`). They are not where the base is the adoption commit and
  that commit edited a note of the earlier release (`DeliveryPaths.EditBeforeAdoptionPasses`); without a pull request
  this is the only failure (`DeliveryLaws.PublishedIsAsReleasedAtTheBase`). In a pull request the chain may also start
  from a commit that differs from the base, for example below a merge that dropped a note, even where the base is the
  release itself (`DeliveryPaths.DropByMergePasses`).
- `verify_bom` compares documents with Python's `==`, so that a version of 1.0 or `true` also verifies.
  `ReleaseSbom.BuiltIffIntegerVersion` gives the exact condition and `ReleaseSbom.TrueVersionVerifies` a document.

## Model

| member | source | states |
|---|---|---|
| Layers.DependencyError | scripts/architecture_check.py:54-72 | an error exactly when the import breaks one of the six rules: outward imports, context domains, foreign contexts, the experimental context, the legacy application, and shared code |
| Layers.FirstBrokenExact | scripts/architecture_check.py:54-72 | the error names the first rule broken, in the order of the source |
| Layers.ContextExactly | scripts/architecture_check.py:36-41 | a package has a context role exactly where it lies in the folder of that role, or is it |
| ForbiddenRoute.FirstForbiddenRouteUnique | scripts/architecture_check.py:75-86 | at most one route has the fewest imports and is alphabetically first, so the reported route does not depend on the search |
| ForbiddenRoute.FirstForbiddenRouteExists | scripts/architecture_check.py:75-86 | wherever a forbidden package is reachable there is such a route |
| ForbiddenRoute.SettledBefore | scripts/architecture_check.py:78-85 | the breadth-first invariant: every walk that precedes the route being extended ends at a package already reached by a route at least as good |
| ForbiddenRoute.Scan | scripts/architecture_check.py:80-85 | one pass over the sorted imports of a route finds the first forbidden route or settles that package |
| ForbiddenRoute.Search | scripts/architecture_check.py:75-86 | returns nothing exactly when no forbidden target is reachable, otherwise the genuine route with the fewest imports, alphabetically first among those |
| ImportCycles.RotationsAgree | scripts/architecture_check.py:97-98 | all rotations of a simple cycle have one canonical form |
| ImportCycles.CanonicalCycle | scripts/architecture_check.py:96-99 | that form is a simple cycle of the graph that starts at its least package |
| ImportCycles.ActiveLoop | scripts/architecture_check.py:95-100 | when a package is met again on the active walk, the part from it on is a genuine simple cycle |
| ImportCycles.VisitSound | scripts/architecture_check.py:94-108 | every report of the depth-first search is a genuine simple cycle |
| ImportCycles.VisitComplete | scripts/architecture_check.py:94-108 | a visit, whatever it reports, leaves finished packages whose imports are finished or lie on a reported cycle, and every cycle among them has an import in common with a reported one |
| ImportCycles.CycleReportsCover | scripts/architecture_check.py:89-112 | every directed cycle has an import in common with a reported one, and only genuine cycles are reported |
| ImportCycles.CycleReportsExact | scripts/architecture_check.py:89-112 | for every finite graph the search reports something exactly when the graph has a directed cycle |
| ImportCycles.Finder.VisitPackage | scripts/architecture_check.py:94-108 | the mutable search has the state the search function gives, and terminates on packages not yet entered |
| ImportCycles.Finder.VisitTargets | scripts/architecture_check.py:104-106 | the same for the loop over sorted imports |
| ImportCycles.FindImportCycles | scripts/architecture_check.py:89-112 | the sorted reports: genuine, one for an import of every cycle, and not empty exactly when there is one |
| Architecture.NoErrorsIffConforms | scripts/architecture_check.py:115-141 | no error exactly when no package reaches a forbidden target by one or more imports and the graph is acyclic: dropping routes of length two loses nothing |
| Architecture.EveryViolationIsNamed | scripts/architecture_check.py:115-141 | every forbidden import is named with its file and rule, every package with an indirect first forbidden route with that route, every cycle by one that shares an import, and nothing else |
| Architecture.FindRouteErrors | scripts/architecture_check.py:135-139 | one message for each package with a role whose first forbidden route is indirect |
| Architecture.ReadImports | scripts/architecture_check.py:118-126 | the graph and the direct errors of all files, whatever their order |
| Architecture.Analyze | scripts/architecture_check.py:115-141 | the sorted errors; empty exactly when the import graph conforms, and naming every violation and nothing else |
| GitBytes.Utf8Injective | scripts/dependency_review_provider.py:85-89 | names that encode alike are alike |
| GitBytes.FromHexInjective | scripts/dependency_review_provider.py:89-89 | hexadecimal ids that decode alike are alike |
| GitBytes.EncodeCharDecodes | scripts/dependency_review_provider.py:85-89 | a character is encoded as section 3 of RFC 3629 says |
| GitBytes.FromHexAt | scripts/dependency_review_provider.py:89-89 | each byte of an id is the number of its two digits |
| GitBytes.DecimalReads | scripts/dependency_review_provider.py:91-91 | the length stands for its number and does not begin with a needless zero |
| GitTree.SortKeysDiffer | scripts/dependency_review_provider.py:85-85 | Git's directory sort key tells the children of a folder apart |
| GitTree.ItemUnique | scripts/dependency_review_provider.py:89-89 | an entry and what follows it can be read from the bytes in one way only |
| GitTree.PayloadUnique | scripts/dependency_review_provider.py:84-91 | a payload determines its entries |
| GitTree.TreeObjectUnique | scripts/dependency_review_provider.py:83-91 | equal tree objects list equal entries in equal order |
| GitTree.BindEntry | scripts/dependency_review_provider.py:80-92 | an entry reached from the root through folders with equal objects is in both listings |
| GitTree.EntriesBinding | scripts/dependency_review_provider.py:66-94 | two sets of entries that reassemble to one root id are equal, or two different objects of one folder have one hash |
| GitTree.BoundByChildren | scripts/dependency_review_provider.py:83-91 | every folder below one has its claimed id exactly when each child has and every folder below each child has |
| GitTree.RootBound | scripts/dependency_review_provider.py:92-92 | the listing reassembles to the root id exactly when everything below the root is bound and the root object has that id |
| NestedTree.PathsAreOrdered | scripts/dependency_review_provider.py:85-85 | the children of a folder are taken in the order in which Git stores its members, a folder as if its name ended with a slash |
| NestedTree.ObjectIs | scripts/dependency_review_provider.py:86-91 | the bytes hashed for a folder are those of the nested tree that it holds: the word tree, the length, and of each member mode, name and id |
| NestedTree.ListingReassembles | scripts/dependency_review_provider.py:66-94 | the flat listing of every nested tree reassembles into its id |
| NestedTree.ReassemblesExactly | scripts/dependency_review_provider.py:66-94 | a listing reassembles into an id exactly when it is the flat listing of a nested tree with that id |
| NestedTree.FlatDistinct | scripts/dependency_review_provider.py:72-79 | a flat listing repeats no path |
| GitListing.ReadRow | scripts/dependency_review_provider.py:55-79 | a row is read exactly when its path, mode, kind and id are valid, and its bytes can be put in a tree object |
| GitListing.ReadRowInjective | scripts/dependency_review_provider.py:73-79 | different rows are read as different entries |
| GitListing.ModeSpelling | scripts/dependency_review_provider.py:89-89 | a mode without leading zeros is Git's spelling of it |
| GitListing.ParentOfText | scripts/dependency_review_provider.py:78-79 | splitting a path at its last slash commutes with its encoding |
| GitListing.AcceptsExactly | scripts/dependency_review_provider.py:66-94 | a reply is accepted exactly when it is complete and the flat listing of a nested tree with the expected id |
| GitListing.GenuineIsAccepted | scripts/dependency_review_provider.py:66-94 | a reply that holds every row of a nested tree once, in any order, is accepted |
| GitListing.EveryTreeReassembles | scripts/dependency_review_provider.py:66-94 | every nested tree has entries that reassemble into its id |
| GitListing.TreeBinding | scripts/dependency_review_provider.py:66-94 | two replies accepted for one tree id list the same entries, or exhibit a collision at one folder, however rows are read |
| GitListing.TextBinding | scripts/dependency_review_provider.py:66-94 | on text: two accepted replies hold the same rows, or exhibit a collision at one folder |
| GitListing.RowBytes | scripts/dependency_review_provider.py:78-89 | the bytes added for a row are its mode without leading zeros, a space, what follows the last slash of its path, NUL, and its decoded id |
| GitListing.RowOrderIrrelevant | scripts/dependency_review_provider.py:73-79 | a permutation of an accepted listing is accepted with the same entries |
| GitListing.GroupRows | scripts/dependency_review_provider.py:72-79 | succeeds exactly when all rows are readable and no path is repeated; the children lists hold exactly the children |
| GitListing.Assemble | scripts/dependency_review_provider.py:83-91 | succeeds exactly when every folder below has its claimed id, and returns the hash of the folder's object |
| GitListing.AssembleItems | scripts/dependency_review_provider.py:84-89 | the loop over sorted children builds exactly the payload, or finds a folder with a wrong id |
| GitListing.CheckTree | scripts/dependency_review_provider.py:80-92 | accepts exactly the listings in which every row is reachable from the root and that reassemble to the root id |
| GitListing.ReadTree | scripts/dependency_review_provider.py:66-94 | accepts exactly the complete flat listings of a nested tree with the expected id, and returns its rows other than folders |
| GitListing.ReadTreeText | scripts/dependency_review_provider.py:66-94 | the same with rows read from text |
| TreeDiff.Reconstruction | scripts/dependency_review_provider.py:155-183 | applying the accepted rows to the old tree, in any order, gives exactly the new tree |
| TreeDiff.PlannedAccounts | scripts/dependency_review_provider.py:159-183 | however new files are told from moved and copied ones, the listing of the changed paths is accepted |
| TreeDiff.AccountedReport | scripts/dependency_review_provider.py:155-183 | a report whose rows account for the difference rebuilds the new tree and touches exactly the changed paths |
| TreeDiff.SnapshotBinding | scripts/dependency_review_provider.py:153-183 | snapshots accepted for the same two tree ids cover the same paths, or exhibit a collision |
| TreeDiff.Listed | scripts/dependency_review_provider.py:156-181 | the pages together hold exactly the declared number of rows |
| TreeDiff.ListedExactly | scripts/dependency_review_provider.py:156-181 | the loop finds rows exactly where they are as many as declared and lie on the pages a hundred at a time |
| TreeDiff.Listing.Add | scripts/dependency_review_provider.py:159-177 | a row is taken exactly when it fits both trees and its path is new |
| TreeDiff.Listing.AddPage | scripts/dependency_review_provider.py:156-180 | a page is taken exactly when all its rows can be |
| TreeDiff.ListPages | scripts/dependency_review_provider.py:155-183 | the page loop succeeds exactly when the pages hold the declared number of rows and these account for the difference, and returns them with their modes |
| TreeDiff.ListFiles | scripts/dependency_review_provider.py:155-183 | it succeeds exactly when the pages hold as many rows as declared and these account for the difference; the report is those rows with their modes, turns the old tree into the new one, touches every path that differs and no other |
| SpdxGrammar.AllowedMonotone | scripts/dependency_policy.py:132-168 | enlarging the allow-lists never turns an allowed expression into a disallowed one |
| SpdxGrammar.PrimarySound | scripts/dependency_policy.py:132-152 | what is parsed as an operand is a tree of the grammar within the nesting budget, and the tokens read are its printed form |
| SpdxGrammar.ConjunctionSound | scripts/dependency_policy.py:154-160 | the same for conjunctions |
| SpdxGrammar.DisjunctionSound | scripts/dependency_policy.py:162-168 | the same for disjunctions |
| SpdxGrammar.PrimaryComplete | scripts/dependency_policy.py:132-152 | the printed form of any operand within the budget is parsed as that operand |
| SpdxGrammar.ConjunctionComplete | scripts/dependency_policy.py:154-160 | the same for conjunctions not followed by WITH or AND |
| SpdxGrammar.DisjunctionComplete | scripts/dependency_policy.py:162-168 | the same for disjunctions not followed by an operator |
| SpdxGrammar.ParseExact | scripts/dependency_policy.py:170-174 | a token sequence is parsed as a tree exactly when it is the printed form of that tree: WITH over AND over OR, at most 16 nested groups |
| SpdxGrammar.PrintInjective | scripts/dependency_policy.py:132-174 | the grammar is unambiguous |
| SpdxText.ScanExact | scripts/dependency_policy.py:115-125 | a text has these tokens exactly when it consists of them and of blanks, with a blank between two words |
| SpdxText.EvaluatePrinted | scripts/dependency_policy.py:109-174 | writing any tree within the budgets, with any spacing, and evaluating the text gives the meaning of the tree |
| SpdxText.TokenizeExact | scripts/dependency_policy.py:110-125 | exactly the texts of at most 2048 characters and 128 tokens are read |
| SpdxText.EvaluateExact | scripts/dependency_policy.py:109-174 | a text gets a verdict exactly where it writes a tree of the grammar, and the verdict is the meaning of that tree |
| SpdxText.TrimmedBetween | scripts/dependency_policy.py:182-182 | what is stripped of a licence before it is compared with the unknown ones is blank |
| LicenseRules.ReadRules | scripts/dependency_policy.py:84-106 | the folded lists, exactly where they are valid and repeat nothing but for letter case |
| LicenseRules.FoldedPairMeaning | scripts/dependency_policy.py:96-105 | a licence with an exception is found exactly where a listed pair has the same licence and the same exception, in any letter case |
| LicenseRules.VerdictByLists | scripts/dependency_policy.py:84-174 | an expression is allowed exactly where its meaning holds of what the lists name, in any letter case and spacing |
| SpdxText.AcceptanceIndependent | scripts/dependency_policy.py:154-174 | whether an expression is accepted does not depend on the allow-lists, and larger lists allow no less |
| SpdxText.CheckedNeverFails | scripts/dependency_policy.py:177-184 | an expression that was checked once against empty lists never fails later, and only such |
| SpdxText.Expression.Read | scripts/dependency_policy.py:110-127 | reads the tokens exactly where the text is short, plain ASCII and made of at most 128 tokens |
| SpdxText.Expression.Cut | scripts/dependency_policy.py:115-125 | the loop over the text yields exactly its tokens |
| SpdxText.Expression.Primary | scripts/dependency_policy.py:132-152 | moves the shared position past the operand and returns its meaning, or fails exactly where no operand stands |
| SpdxText.Expression.Conjunction | scripts/dependency_policy.py:154-160 | the loop gives the meaning of the whole conjunction and parses every operand |
| SpdxText.Expression.Disjunction | scripts/dependency_policy.py:162-168 | the loop gives the meaning of the whole disjunction |
| SpdxText.EvaluateText | scripts/dependency_policy.py:170-174 | the mutable parser succeeds exactly on the texts that write a tree of the grammar and computes its meaning |
| PolicyVocabulary.LicenseVocabularyCoherent | scripts/dependency_policy.py:177-184 | the licence verdict never fails on what the component check accepted |
| PolicyVocabulary.WaivedLicenseNeverFails | scripts/dependency_policy.py:254-257 | the expression of a valid licence waiver never fails either |
| Policy.ValidatePolicy | scripts/dependency_policy.py:232-265 | accepts exactly the lists whose rows are valid that day, with an identifier, coordinates and a value that fits its kind, and repeat no identifier and no scope |
| Policy.ActiveMembers | scripts/dependency_admission.py:49-50 | a row is active or expired by its own date only |
| Policy.ActiveExpiredPartition | scripts/dependency_admission.py:42-50 | active and expired rows partition the list |
| Policy.BaseAcceptsMeaning | scripts/dependency_admission.py:37-51 | a well-kept list is accepted exactly when no row in force was reviewed in the future |
| Policy.AcceptedLater | scripts/dependency_admission.py:37-51 | a list accepted on one day is accepted on every later day |
| Policy.ActiveShrinks | scripts/dependency_admission.py:49-50 | active waivers only shrink |
| Policy.BaseRules | scripts/dependency_admission.py:37-51 | succeeds exactly when the list is accepted, and returns the active rows and the sorted expired identifiers |
| Assessment.AssessMeaning | scripts/dependency_policy.py:304-313 | a component passes exactly when its licence is allowed or waived and a waiver names every finding that is high, critical or unknown |
| Assessment.LicenseAloneDecides | scripts/dependency_policy.py:310-312 | without such a finding the licence alone decides |
| Assessment.AssessReports | scripts/dependency_policy.py:298-313 | the violations in order, one for the licence and one for each such finding without a waiver, and the waivers used, each of them needed |
| Assessment.FindWaivers | scripts/dependency_policy.py:298-302 | finds the waivers of exactly these coordinates, kind and value |
| Assessment.AssessLicense | scripts/dependency_policy.py:304-309 | the licence violation and the waivers used for it |
| Assessment.AssessFindings | scripts/dependency_policy.py:310-312 | one violation for each blocking finding without a waiver, and the waivers used |
| Assessment.AssessComponent | scripts/dependency_policy.py:291-313 | a verdict exactly when policy and component are valid, passed exactly when the licence is fine and every finding is low, moderate or waived |
| Assessment.PassesEarlier | scripts/dependency_policy.py:291-313 | a component that passes on a later day passes on the earlier one, and the earlier day reaches that verdict exactly where no waiver then in force was reviewed after it |
| Assessment.JoinHomomorphism | scripts/dependency_review_join.py:72-79 | findings merged by the greater severity pass exactly when each set passes alone, and valid merged findings are valid apart |
| Advisories.NormalizeMeaning | scripts/dependency_advisories.py:83-111 | a record is refused exactly where it is malformed, over its limits, without an advisory identifier or not about the package; a withdrawn one has no finding; any other has the first identifier by source class and the greatest severity of the entries that count |
| Advisories.ChosenBySource | scripts/dependency_advisories.py:87-92 | of the advisory identifiers GitHub's are taken first, then Go's, and of one source the first in order |
| Advisories.MaxSeverityMeaning | scripts/dependency_advisories.py:103-110 | the severity is the greatest label, and unknown without a label |
| Advisories.FoldIsMaximum | scripts/dependency_advisories.py:173-178 | per identifier the greatest severity over all records that are not withdrawn |
| Advisories.FoldOrderIndependent | scripts/dependency_advisories.py:173-178 | the order of records, on a page or across pages, does not matter |
| Advisories.CompletesUnique | scripts/dependency_advisories.py:169-183 | at most one number of pages completes an observation |
| Advisories.NeverCompletes | scripts/dependency_advisories.py:169-185 | after a failed page, a bad record or a bad continuation nothing completes it |
| Advisories.ReadRecord | scripts/dependency_advisories.py:174-178 | one record is folded in exactly when it is valid and its source is new |
| Advisories.ReadPage | scripts/dependency_advisories.py:172-178 | a page is folded in exactly when all its records can be |
| Advisories.Observe | scripts/dependency_advisories.py:155-187 | observed exactly when at most 8 pages with distinct continuations end in one without; then every identifier has its maximum, otherwise there are no findings at all |
| Advisories.ObservedIsAssessable | scripts/dependency_advisories.py:155-187 | what is observed has at most 128 findings with different advisory identifiers, so that the policy accepts it |
| Advisories.NormalizeReadsAdvisories | scripts/dependency_advisories.py:91-111 | every identifier read is an advisory identifier |
| Admission.NothingEscapes | scripts/dependency_admission.py:91-138 | if the decision passes, every head component is its base row with no new origin or was cleared; every row the provider added is answered by a head component that was looked up, passes with the findings of both sources and of that row, and has no licence conflict, even if it is unchanged or test data |
| Admission.AdmittedIsCleared | scripts/dependency_admission.py:101-123 | an admitted component has an allowed or waived licence in no conflict, and was observed and passes with the findings of both sources, or is a verified data fixture that the provider does not name |
| Admission.ObservedLookupIsAssessable | scripts/dependency_admission.py:112-118 | a lookup made by complete observation is never the reason why a component gets no verdict |
| Admission.ProviderOnlyBlocks | scripts/dependency_review_join.py:84-97 | what is admitted with provider rows is admitted without them |
| Admission.IndexHead | scripts/dependency_review_join.py:41-43 | succeeds exactly when normalised identities differ |
| Admission.JoinedAdvisories.Load | scripts/dependency_review_join.py:34-59 | succeeds exactly when identities differ, there are at most 4096 provider rows, and none is invalid or repeated; fields hold the joined entries, the components that must be assessed, and the unmatched rows |
| Admission.JoinedAdvisories.Observe | scripts/dependency_review_join.py:64-81 | joined findings where the exact-version lookup was observed, and every licence conflict recorded |
| Admission.JoinedAdvisories.Judge | scripts/dependency_admission.py:101-123 | the verdict on one component, fixtures that the provider names being no exception |
| Admission.AssessChanges | scripts/dependency_admission.py:100-130 | every changed or required component has a verdict, and the waivers used are exactly those of the verdicts |
| AdmissionOutcome.Decide | scripts/dependency_review_join.py:84-99 | a decision exactly when everything can be decided; it holds a verdict on every component that needs one with its violations and waivers, the rows that match nothing, the conflicts, and whether all is well |
| AdmissionOutcome.EntriesExactly | scripts/dependency_review_join.py:44-59 | of each identity the table holds the licences stated, the identifiers reported, and of each the worst severity, whatever the order of the rows |
| AdmissionOutcome.VerdictExactly | scripts/dependency_admission.py:106-123 | a component gets a verdict exactly where its lookup and the rows about it can be assessed, and is admitted exactly where its licence is fine and in no conflict and every finding of either source is low, moderate or waived, or it is test data that the provider does not name |
| AdmissionOutcome.VerdictReports | scripts/dependency_admission.py:106-130 | the violations and waivers of a verdict, in terms of the lookup and the rows |
| AdmissionOutcome.DecidableExactly | scripts/dependency_review_join.py:84-99 | a decision is reached exactly where policy and rows are valid, identities differ, every component that needs a verdict gets one, and the waivers used are reviewed |
| AdmissionOutcome.AdmittedExactly | scripts/dependency_review_join.py:84-99 | it passes exactly where every added row is about a head component and every component that needs a verdict is cleared |
| AdmissionOutcome.MarkConflicts | scripts/dependency_review_join.py:90-94 | the loop that adds the licence conflicts to the verdicts |
| LineText.LinesOfFlatten | scripts/change_fragments.py:84-85 | lines and text determine each other |
| ChangelogLens.NextSection | scripts/change_fragments.py:84-89 | the body ends at the first following section heading of any title |
| ChangelogLens.ReadConcat | scripts/change_fragments.py:80-89 | how a section is found in a text of two parts, and that two headings of one title are refused |
| ChangelogLens.CutIsParts | scripts/change_fragments.py:136-146 | the cut of a changelog around its Unreleased body is unique |
| ChangelogLens.UpdateThenRead | scripts/change_fragments.py:134-147 | put-get on lines |
| ChangelogLens.UpdateKeepsHistory | scripts/change_fragments.py:139-147 | with the marker, the historical section is frozen and unchanged |
| ChangelogLens.UpdateMovesHistory | scripts/change_fragments.py:142-147 | without the marker, the old Unreleased body is frozen and becomes the historical section, found again exactly when no other such heading was there |
| ChangelogLens.UpdateTwice | scripts/change_fragments.py:134-147 | put-put holds exactly on the texts that settle |
| ChangelogLens.UpdateSettles | scripts/change_fragments.py:134-147 | an update keeps a text settled |
| ChangelogLens.OnlyTheLastUpdateCounts | scripts/change_fragments.py:134-147 | on a text that settles any run of updates equals its last one |
| ChangelogText.UpdatedLines | scripts/change_fragments.py:134-147 | the lines of an updated document are the updated lines, and no carriage return appears |
| ChangelogText.OccursIsSuffix | scripts/change_fragments.py:138-139 | the marker occurs in a document exactly when some line ends with it |
| ChangelogRender.RenderUnreleased | scripts/change_fragments.py:96-131 | the lines grown in loops give the rendered text, or nothing where the input is refused, for the script's wording and any other |
| ChangelogRender.AddBlocks | scripts/change_fragments.py:117-124 | one block for each category that has fragments, in order, its fragments sorted by identifier |
| ChangelogRender.OrderDoesNotMatter | scripts/change_fragments.py:117-124 | the same fragments in any order give the same text |
| ChangelogRender.FinePublic | scripts/release_lifecycle.py:126-128 | escaped text has no line break and no bare parenthesis |
| ChangelogRender.FineAll | scripts/change_fragments.py:110-130 | no rendered line is a section heading, breaks, or holds a bare parenthesis |
| ChangelogContents.PublicTextInjective | scripts/release_lifecycle.py:126-128 | escaping loses nothing |
| ChangelogContents.SummaryLineInjective | scripts/change_fragments.py:122-122 | the summary line of a fragment gives its summary and its identifier back |
| ChangelogContents.RenderedExactly | scripts/change_fragments.py:110-131 | the text is the opening, one block for each category that has fragments, in order, each with heading, summary and details of all its fragments by identifier, and the closing, with the blanks at the end replaced |
| ChangelogContents.LaidShows | scripts/change_fragments.py:117-124 | every fragment stands below the heading of its category, with only fragments of that category between |
| ChangelogWording.WordingIsFine | scripts/change_fragments.py:110-130 | the fixed sentences and headings of the script hold no line break, no level-two heading and no bare parenthesis |
| Changelog.RulesAreSound | scripts/change_fragments.py:80-93 | the headings of the two titles are sections, never both, never blank, and the marker is a heading |
| Changelog.RenderedIsClean | scripts/change_fragments.py:96-131 | the rendered text can never be mistaken for a section heading or hold the marker, whatever the fragments say |
| Changelog.ReadsWhatWasWritten | scripts/change_fragments.py:134-147 | after an update, reading Unreleased returns exactly the rendered text |
| Changelog.MarkerIsMentioned | scripts/change_fragments.py:138-139 | the substring test of the source is the line test of the model |
| ChangelogExact.ReadExactly | scripts/change_fragments.py:80-89 | a section is read exactly where the text can be cut around the only heading of its title, and its body is what is read |
| ChangelogExact.UpdateExactly | scripts/change_fragments.py:134-147 | on lines: an update succeeds exactly where the text can be cut around its Unreleased section and the history is frozen, and copies every other part |
| ChangelogExact.ApplyExactly | scripts/change_fragments.py:134-147 | the same on text, for the script's own headings and digest |
| Changelog.HistoryIsKept | scripts/change_fragments.py:139-147 | where the marker occurs the historical section is unchanged |
| Changelog.KeptHistoryIsFrozen | scripts/change_fragments.py:140-146 | and has the pinned digest |
| Changelog.HistoryIsMoved | scripts/change_fragments.py:142-147 | otherwise the old Unreleased text has the pinned digest and becomes the historical section, exactly where no heading of that title was there |
| Changelog.SecondUpdateWins | scripts/change_fragments.py:134-147 | a second update equals applying only the last one exactly when the marker occurs outside the Unreleased body or nothing like it occurs |
| Changelog.UpdateIsStable | scripts/change_fragments.py:134-147 | so updating is idempotent exactly on those documents |
| Changelog.StrayHeadingIsNotSettled | scripts/change_fragments.py:84-87 | a document with a trailing blank in its historical heading is updated once and is not one of them |
| DeliveryHistory.DeliveriesAreAChain | scripts/release_history.py:167-181 | deliveries form one chain of first parents from a commit the base contains to the head, through commits it does not contain |
| DeliveryHistory.ChainIsUnique | scripts/release_history.py:167-181 | and are the only such chain |
| DeliveryHistory.UntouchedIsKept | scripts/release_history.py:257-260 | what no delivery touches is the same at every commit of the chain |
| DeliveryHistory.ChangeIsDelivered | scripts/release_history.py:257-258 | what differs at the ends was touched by some delivery |
| DeliveryOutcome.CheckDeliveries | scripts/release_history.py:254-272 | the loop succeeds exactly where every delivery passes, and collects the commits of those without a note |
| DeliveryOutcome.JudgeMeaning | scripts/release_history.py:255-272 | a delivery is refused exactly where it touches a published note, touches one that cannot be read, or has a visible change without a note and without approval |
| DeliveryOutcome.ExemptedMeaning | scripts/release_history.py:254-272 | the loop as a function: it fails exactly where some delivery does not pass |
| DeliveryOutcome.CollectNotes | scripts/release_history.py:275-286 | the loop succeeds exactly where no changed note is published and every one that is there can be read, and reads those |
| DeliveryOutcome.CollectMeaning | scripts/release_history.py:275-286 | what the loop over the notes collects and counts |
| DeliveryOutcome.InspectHistory | scripts/release_history.py:200-292 | the inspection succeeds with a report exactly where base and chain exist, the changelog fits, every delivery passes, the changed notes are fine and pending changes are noted; the report is then the one described |
| DeliveryOutcome.InspectExactly | scripts/release_history.py:200-292 | the same for the inspection as a function |
| DeliveryLaws.NoDeliveryIsRefused | scripts/release_history.py:257-272 | where the loop succeeds every delivery is orderly, and noted or approved |
| DeliveryOutcome.ExemptExactly | scripts/release_history.py:262-272 | the exempt list names exactly the deliveries with a visible change, without a note, and approved |
| DeliveryLaws.EmptyChainEndsAtBase | scripts/release_history.py:228-242 | without deliveries the chain ends at the base |
| DeliveryLaws.PublishedIsKept | scripts/release_history.py:257-279 | a published note is the same at every commit of the chain, in the pull request as where it branched off, and at the head and in the working tree as at the base |
| DeliveryLaws.PublishedIsAsAtTheBase | scripts/release_history.py:252-279 | without a pull request, every commit of the chain holds it as the base does, even where the base is not on the chain |
| DeliveryLaws.PublishedIsAsReleased | scripts/release_history.py:252-279 | with or without a pull request, the chain keeps what the previous release published exactly where the commit it starts from already held it |
| DeliveryLaws.PublishedIsAsReleasedAtTheBase | scripts/release_history.py:235-279 | without a pull request: always where the base is that release, otherwise exactly where the adoption commit left the note alone |
| DeliveryLaws.VisibleDeliveryIsAccounted | scripts/release_history.py:262-272 | a delivery with a visible path adds or edits a valid unpublished note, or is exempt with approval |
| DeliveryLaws.VisibleChangeIsAccounted | scripts/release_history.py:254-272 | every visible path the chain changed was changed by an accounted delivery |
| DeliveryLaws.ChangedNotesAreReported | scripts/release_history.py:251-286 | every note in the working tree that differs from the base is reported |
| DeliveryLaws.ReportedNotesAreRenderable | scripts/release_history.py:277-286 | reported notes are valid and share no identifier |
| DeliveryPaths.StemsOfFragmentsDiffer | scripts/release_history.py:31-34 | two fragment files with one identifier are one file |
| DeliveryPaths.FragmentPathExactly | scripts/release_history.py:31-34 | a fragment path is a file directly in its folder with the suffix, and its stem is the name |
| DeliveryPaths.EditBeforeAdoptionPasses | scripts/release_history.py:235-239 | a repository in which the adoption commit edits a published note, and the inspection succeeds |
| DeliveryPaths.DropByMergePasses | scripts/release_history.py:211-256 | a repository in which a merge drops a published note, and the inspection of a pull request onto it succeeds with the release as its base |
| DeliveryChangelog.ReportIsWritable | scripts/release_history.py:243-292 | the adoption digest and the trial update without notes are enough: the report of a successful inspection can be written exactly where it is within the budgets of rendering |
| DeliveryChangelog.WrittenReportIsRead | scripts/release_history.py:243-292 | and the changelog then holds exactly the reported notes |
| ActionClosure.GatherIs | scripts/dependency_actions.py:116-134 | merging rows keeps one row for each identity and loses and invents no origin or location |
| ActionClosure.References | scripts/dependency_actions.py:116-134 | succeeds exactly with known origins and short printable locations, within 1024 uses and 128 Actions, and gives the merged rows |
| ActionClosure.Follow | scripts/dependency_actions.py:370-379 | the rows that the dependencies of one Action add, or nothing where one cannot be resolved |
| ActionClosure.EdgesExactly | scripts/dependency_actions.py:370-379 | an Action can be followed exactly where its manifest is read and all its Actions resolve, and adds as many rows as it has Actions |
| ActionClosure.FitsExactly | scripts/dependency_actions.py:361-379 | the lists within the budgets, counted by references, are those that the loop counts by rows |
| ActionClosure.CollectActions | scripts/dependency_actions.py:356-382 | terminates; succeeds exactly where some list of different Actions that can all be followed holds the seeds and whatever it refers to and is within 128 Actions and 512 uses; then every Action has one complete row |
| ActionClosure.GivesUp | scripts/dependency_actions.py:361-369 | where the loop gives up no list fits the budgets |
| ActionClosure.CollectedExactly | scripts/dependency_actions.py:356-382 | the result is the least set that holds the seeds and is closed, and each location is one among the seeds or an edge from a collected Action, cycles included |
| ActionClosure.CollectedOrigins | scripts/dependency_actions.py:365-379 | origins are those of the seeds, and the nested one exactly where an edge leads to the Action |
| ActionClosure.CollectionIsUnique | scripts/dependency_actions.py:356-382 | the collection does not depend on the order or repetition of seed rows |
| ReleaseSbom.KeyOrder | scripts/release_sbom.py:103-103 | the sort key orders as the tuple of package URL, name and version |
| ReleaseSbom.ExportedKeysDiffer | scripts/release_sbom.py:94-103 | no two exported components sort alike |
| ReleaseSbom.IdentityDetermines | scripts/release_sbom.py:47-100 | components are remembered under one key exactly where they must not differ |
| ReleaseSbom.Take | scripts/release_sbom.py:37-100 | one component is exported, skipped as known, or refused |
| ReleaseSbom.PublicComponents | scripts/release_sbom.py:28-103 | a list exactly where every component is public or a file record, some is no file record, and one URL stands for one package; it holds kind, name, version and URL of exactly these components, sorted by key, and no other field |
| ReleaseSbom.PublicExactly | scripts/release_sbom.py:28-103 | the same for the export as a function |
| ReleaseSbom.OrderDoesNotMatter | scripts/release_sbom.py:28-103 | the list depends only on which components there are |
| ReleaseSbom.ExportIsStable | scripts/release_sbom.py:28-103 | exporting an exported list gives it back |
| ReleaseSbom.VerifiesExactlyWhatIsBuilt | scripts/release_sbom.py:106-130 | a document verifies exactly when it is, up to how its version number is spelled, one built from an exported list |
| ReleaseSbom.BuiltIffIntegerVersion | scripts/release_sbom.py:123-130 | a verified document was built exactly when its version is an integer |
| ReleaseSbom.TrueVersionVerifies | scripts/release_sbom.py:127-128 | a document with the version `true` verifies |
| ReleaseSbom.VerifiedIsCanonical | scripts/release_sbom.py:123-130 | verified documents with the same components for one subject differ at most in how the version is spelled |
| ImageReference.ParsedIsCanonical | scripts/dependency_image_registry.py:40-65 | whatever is accepted is a canonical row |
| ImageReference.PrintedFits | scripts/dependency_image_registry.py:109-109 | a printed row is printable and at most 466 characters, so the limit of 512 never rejects it |
| ImageReference.PrintedIsRead | scripts/dependency_image_registry.py:109-109 | every canonical row is read back from its printed form |
| ImageReference.GuardAcceptsExactlyCanonical | scripts/dependency_image_registry.py:139-139 | the guard of `token` and `resolve` holds of the canonical rows and of no others |
| ImageReference.ReferenceRoundTrip | scripts/dependency_image_registry.py:40-65 | for every accepted reference, printing and parsing gives the same row |
| ImageSpelling.AcceptsExactly | scripts/dependency_image_registry.py:40-65 | a text is accepted for a row exactly where it spells it: the scheme or nothing, one of the hosts or none, the path, tag and digest |

## Left out

- HTTP, `gh`, `git` and `go` processes, authentication, receipts, byte and request budgets of clients, timeouts, file access: replies are parameters or arbitrary inputs.
- SHA-1, SHA-256 and UUID internals: hashes are functions; a collision is stated as two different objects of one folder with one hash. Ids are compared as bytes instead of lower-case hexadecimal text.
- JSON, YAML, URL and most regular-expression matching: values are given as parsed. Coordinates, advisory identifiers, package URLs and percent-encoding are predicates; the flag `Fragment.declared` stands for checks of fields that are not rendered.
- Lone surrogates in JSON text, which a Dafny character cannot hold, and the interpreter's recursion limit.
- The Unicode tables for control characters and whitespace: tables given as functions.
- `analyze`: its warnings about file and interface size, which decide nothing.
- `component_rows`: an inventory is given as a map with the effective licence, origins and digest, as that function returns it; its field checks and byte budgets are not modelled.
- The fields of the admission report beside verdicts, unmatched rows, conflicts and the decision: change types, receipts, and the provider's findings listed with a verdict.
- The order of `changes` in the admission report and the order of `exceptions` in a verdict: both are sets or maps here.
- `Client.cache`, `exception_reviews.verify` and fixture observation: parameters of the decision.
- The dependency rows of a snapshot after the file listing.
- Policy.ValidatePolicy: the owner, reason and review link of a waiver are the flag `wellFormed`, because no decision uses them.
- `inspect`: a directory that stands where a published note stood counts as absent; `git merge-base` and the readings of the release metadata are parameters.
- `Repository.deliveries`: Git's own traversal is modelled by its documented meaning on an acyclic commit graph.
- `relative_file`, `external` and the fetching of Action manifests: reading a manifest and resolving a reference are parameters.
- Image manifests, tokens and descriptors beyond the reference.
- Archive readers, file-system walks, report writers, generators, inventories, scorecards, and the Go and SQL sources.
