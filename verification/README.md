# What the broker calls latest, and the algorithms behind its network graph

The broker stores contracts ("pacts") between consumers and providers. A pact belongs to a consumer
version and a provider, is published in revisions, is identified by its content, carries the tags of its
version and is verified by provider versions. Which revision, which verification and which tagged pact is
the *latest* is answered by views, several of which were redefined over the years, some from a stack of
grouped queries into a flat one, some onto two index tables that the code keeps by hand. This project
models these tables, views, migrations and write paths, and the self-contained algorithms of the checked-in
d3 copy and of the pagination script, and proves what they promise.

## How the model is laid out

Tables are finite sets of rows, nullable columns are options, a view is a function from tables to a set, and
a view with `GROUP BY` and one `MAX` is a map (`Sql.dfy`). `Schema.dfy` holds the rows, the declared keys and,
apart from them, the facts the views rely on without declaring them: versions with pacts have an order
(`OrdersKnown`), the copied columns agree with what they copy (`PactVersionsOwned`, `VerificationsOwned`,
`TagOrdersCopied`).

| file | subject |
|---|---|
| `LatestPublications`, `TagHeads` | newest revisions, head orders per tag, head tags, in all their versions |
| `LatestVerifications` | newest verifications per pact version, per consumer and provider, per tag |
| `Matrix`, `HeadMatrix`, `HeadMatrixRows` | the matrix, the latest matrix and the head matrix, stacked and flat, and how often rows come out of their joins |
| `ViewMeanings` | what these views show, said of the columns of the tables alone |
| `Publishing`, `PactRepository` | the state machine of publishing and deleting, and the repository that takes its steps |
| `Verifying`, `VerificationRepository` | the same for verifications |
| `OrderVersions` | inserting a version in the order of the numbers, and what becomes of the copied orders |
| `Webhooks` | latest triggered webhooks by date and by id |
| `Normalisation`, `Backfill` | the migrations that loop, insert, update and delete |
| `Dsv`, `DsvRoundTrip` | parser and printer of delimiter-separated values |
| `DataJoin`, `Timer`, `Bundle` | the keyed data join, the timer queue, tree paths |
| `Quadtree`, `QuadtreeNodes` | the quadtree as trees, and as nodes updated in place |
| `Tiling`, `Treemap`, `TreemapLayout`, `TreemapHierarchy` | rectangles that tile, rows of cells, the layout of one node's children and of the whole hierarchy |
| `Pagination` | page window, page numbers, page fragments |
| `Basics`, `Example`, `Counterexamples` | shared types; a small broker that meets everything the views assume; an input for each failure |

Repositories, migrations, parser, timer queue, quadtree nodes and treemap nodes are classes whose methods
are proved against functions on values; what the source promises is proved about those functions. Real
numbers stand for floating point numbers. The loops of the treemap and of the tree paths are proved to end.
Insertion into the quadtree need not end, so it is defined for recursions of limited depth, and when it ends
is proved (`Quadtree.EndsExactly`).

## Where the code does not keep what it might seem to promise

For each of these one lemma says exactly when the property holds, and one gives an input where it does not.

- Deleting verifications leaves the index table without a row when the last one of a pair goes and an
  earlier one stays (`Verifying.DeletionIsSafe`, `Counterexamples.DeletingTheLastVerification`). The comment
  in `db/migrations/20180723` takes for granted that verifications are not deleted one by one;
  `lib/pact_broker/verifications/repository.rb:34` can do that. The other deletions take whole pairs
  (`Verifying.RunConsistent`). For publications no operation of the repository takes part of a pact
  (`Publishing.DeletionIsSafe`, `Counterexamples.DeletingTheLatestRevision`).
- `db/migrations/000024` takes consumer and provider of a pact version from some pact with its content, with
  two separate `limit 1` queries. When two pairs share a content, one of them is left with a pact version of
  another owner (`Normalisation.OwnersKeptUnlessShared`, `Counterexamples.SharedContent`), and then what the
  views assume of owners (`PactVersionsOwned`) does not hold of the migrated tables
  (`Normalisation.MigratedOwners`); over such tables the definition of the newest verification per tag of
  20180727 differs from the one before it (`Counterexamples.SharedContentTagged`).
- The index of newest revisions is filled from a view that leaves out versions without an order, so it lacks
  their pacts (`LatestPublications.PopulatedIndexIsHighest`); over an index kept by the code the first
  definition of the view misses them (`LatestPublications.ByConsumerVersionsExactly`,
  `Counterexamples.UnorderedVersion`).
- The view that 20180726 rewrote without grouping repeats the row of a consumer version and no provider
  version for every pact of that version that nobody verified (`Matrix.IndexedPairsOnce`,
  `Counterexamples.UnverifiedTwice`). Where the latest matrix joins it, that row joins nothing.
- Inserting a version in the order of the numbers moves versions up, but not the copies of their orders that
  tags hold (`OrderVersions.TagsLeftBehind`). The fourth definition of the head order per tag relies on them,
  and then differs from the third exactly when a tagged version with a pact moved
  (`OrderVersions.HeadOrdersLeftBehind`, `Counterexamples.TaggedVersionMoves`).
- Version 1 of the newest verification per consumer and provider misses verifications of pact versions that
  have been superseded (`LatestVerifications.LatestForConsumerAndProviderV1`,
  `Counterexamples.SupersededVerification`).
- Selecting the head matrix by verification number instead of id is the same only where both increase
  together (`HeadMatrix.HeadMatrixV1Agrees`, `Counterexamples.NumbersAgainstIds`), and so for webhooks by id
  instead of date (`Webhooks.V3AgreesWithV2`, `Counterexamples.TwoEvents`).
- An empty last field, an empty row, or a carriage return in an unquoted field does not survive printing and
  parsing (`DsvRoundTrip.RoundTrip`, `Counterexamples.EmptyLastField`).
- Inserting a point into the quadtree does not end when it meets a leaf whose point is not coincident but has
  the same nearest point of the square, which only points outside can have (`Quadtree.EndsExactly`,
  `Quadtree.NeverEnds`). Data are inside the square that is computed for them, but `root.add` takes any point
  afterwards, and explicit extents may be too small for the data.
- A treemap padding that is negative, or so much larger on one side that the middle between both is outside,
  puts the children outside their parent (`TreemapLayout.PadWithin`, `Counterexamples.LopsidedPadding`).
- Dicing a treemap node whose rectangle is a square lays its children out like slicing: the direction is
  chosen by comparing the side with the width (`TreemapLayout.OneRow`, `Counterexamples.DicedSquare`).
- Page fragments are cut at the announced number of entries, not at the length of the data
  (`Pagination.FragmentsAreData`, `Counterexamples.ShortTotal`).

## Model

| member | source | states |
|---|---|---|
| Sql.GroupMaxIs | db/migrations/000028_create_all_pact_publications.rb:17-24 | a GROUP BY view with one MAX column holds a key and a value exactly when the value occurs in the key's group and no value of the group exceeds it, NULL counting as lowest |
| Sql.SameGroupMax | db/ddl_statements/latest_verification_ids_for_consumer_version_tags.rb:12-66 | two queries have the same grouped maxima when each row of one is met by a row of the other with the same key that is at least as high |
| LatestPublications.AllPublicationsKeyed | db/migrations/000026_create_pact_publications.rb:10 | the joined publications keep the declared keys: one row per id, one per consumer version, provider and revision |
| LatestPublications.LatestRevisionIsHighest | db/migrations/000028_create_all_pact_publications.rb:18-35 | the slow view keeps a revision exactly when its version has an order and no revision of the same pact is higher |
| LatestPublications.PopulatedIndexIsHighest | db/migrations/20180721_migrate_latest_pact_publication_ids.rb:4-5 | filling the index table from the slow view yields the highest revisions if and only if every published version has an order |
| LatestPublications.ByConsumerVersionsExactly | db/ddl_statements/latest_pact_publications_by_consumer_versions.rb:1-16 | over a current index table versions 2 and 3 of the newest revision per consumer version are the same rows, and version 1 agrees with them if and only if every published version has an order |
| LatestPublications.ByConsumerVersionsAgree | db/ddl_statements/latest_pact_publications_by_consumer_versions.rb:1-16 | so over what the views assume the three versions are the same rows |
| LatestPublications.LatestOrdersAgree | db/ddl_statements/latest_pact_consumer_version_orders.rb:4-16 | both definitions of the newest order per consumer and provider are the same map |
| TagHeads.LatestTaggedOrdersAgree | db/ddl_statements/latest_tagged_pact_consumer_version_orders.rb:1-34 | the four definitions of the head order per tag (all revisions of the latest view, all revisions, index joined to versions, index with the copied order) are the same map |
| TagHeads.HeadVersionBearsTag | db/ddl_statements/head_pact_tags.rb:20-33 | the tag joined in version 2 exists for every head and is unique, because a pacticipant's order identifies the version |
| TagHeads.HeadPactTagsAgree | db/ddl_statements/head_pact_tags.rb:1-33 | version 2 of the head tags has exactly the rows of version 1, none dropped and none doubled by the extra join |
| LatestVerifications.IndexHoldsNewest | db/migrations/20180724_migrate_latest_verification_ids.rb:4-12 | a verification is in the populated index exactly when none of the same pact version by the same provider version is newer |
| LatestVerifications.PopulatedKeyUnique | db/migrations/20180723_create_latest_verification_ids.rb:3-17 | rows grouped by four columns satisfy the table's two unique keys |
| LatestVerifications.LatestIdsForPactVersionsAgree | db/ddl_statements/latest_verification_ids_for_pact_versions.rb:1-4 | the maximum over the index per pact version is the maximum over all verifications |
| LatestVerifications.LatestForConsumerAndProviderAgree | db/ddl_statements/latest_verification_ids_for_consumer_and_provider.rb:12-25 | versions 2 and 3 per consumer and provider are the same map |
| LatestVerifications.LatestForConsumerAndProviderV1 | db/ddl_statements/latest_verification_ids_for_consumer_and_provider.rb:1-17 | version 1 has no other keys than version 2 and no larger ids, and has version 2's id exactly when that verification's pact version is still a latest revision |
| LatestVerifications.LatestIdsForTagsAgree | db/migrations/20180727_recreate_latest_verification_ids_for_consumer_version_tags.rb:3-14 | the five definitions of the newest verification per provider, consumer and consumer version tag are the same map |
| Matrix.LatestIdForPairsAgree | db/migrations/20180726_recreate_views.rb:6-13 | the view over the two index tables has the rows of the original grouped view and no others; how often is stated by IndexedPairsOnce |
| Matrix.IndexedPairsOnce | db/migrations/20180726_recreate_views.rb:6-13 | each of them comes out of its joins once if and only if no consumer version has two latest revisions that nobody verified |
| Matrix.PairIdIsNewest | db/migrations/000049_create_latest_verifications_for_cv_and_pv.rb:6-15 | a pair of versions is given a verification's id exactly when it is the newest of that pact version by that provider version |
| Matrix.UnionAllIsUnion | db/migrations/20180210_fix_latest_matrix_for_cv_and_pv_again.rb:24-46 | every row comes out of the joins of the two halves once, and the halves share none, so UNION ALL returns the rows of UNION with the same multiplicity |
| Matrix.InLatestMatrix | db/migrations/20180204_fix_latest_matrix_for_cv_and_pv.rb:10-34 | a verified row is in the fixed view exactly when its verification is the newest of its pair |
| Matrix.OneRowPerVerifiedPair | db/migrations/20180204_fix_latest_matrix_for_cv_and_pv.rb:12-21 | for every latest revision and provider version that verified it there is a row, and it is the only one of that pair |
| Matrix.OneRowPerUnverifiedRevision | db/migrations/20180204_fix_latest_matrix_for_cv_and_pv.rb:25-31 | a latest revision has a row with nulls exactly when nobody verified it, and only one |
| HeadMatrix.HeadsAgree | db/migrations/20180122_create_head_pact_publications.rb:9-18 | the overall and per tag heads over the slow views are those over the index table |
| HeadMatrix.StackFindsNewest | db/migrations/20180129_create_latest_matrix_for_cv_and_pv.rb:33-39 | for a latest revision the stacked grouped views arrive at the newest verification of its pact version, or at nulls when there is none |
| HeadMatrix.StackedHeadMatrixIs | db/migrations/20180207_recreate_head_matrix_union_all.rb:6-28 | the stacked view is exactly the heads, each with its newest verification or nulls |
| HeadMatrix.HeadMatrixV2Is | db/ddl_statements/head_matrix_v002.rb:2-31 | the flattened view is exactly the heads, each with its newest verification or nulls |
| HeadMatrix.StackedIsFlat | db/ddl_statements/head_matrix_v002.rb:2-31 | the stack over the base tables and the flattened view over the index tables are equal as sets of rows |
| HeadMatrix.OneRowPerHead | db/migrations/20180207_recreate_head_matrix_union_all.rb:6-28 | every overall head and every tag head has a row, and no other row has its pact and tag |
| HeadMatrixRows.UnionAllIsStacked | db/migrations/20180207_recreate_head_matrix_union_all.rb:6-28 | the joins of the stacked view and its UNION ALL double no row |
| HeadMatrixRows.UnionAllIsHeadMatrix | db/ddl_statements/head_matrix_v002.rb:2-31 | every row of the flattened view comes once out of the joins of the base tables, the outer join and UNION ALL |
| HeadMatrix.HeadMatrixV1Agrees | db/ddl_statements/head_matrix_v001.rb:2-31 | selection by number equals selection by id if and only if on every head the highest id has the highest number |
| ViewMeanings.PublicationColumns | db/migrations/000028_create_all_pact_publications.rb:4-15 | every row carries the columns of a publication and of its version, pacticipants and content |
| ViewMeanings.PublicationListed | db/migrations/000028_create_all_pact_publications.rb:4-15 | and every publication with these is listed so |
| ViewMeanings.OverallHeadIs | db/migrations/000028_create_all_pact_publications.rb:38-53 | an overall head is a highest revision such that no version of its consumer with a pact with its provider comes after its version, said of the rows' columns |
| ViewMeanings.TagHeadIs | db/migrations/20180122_create_head_pact_publications.rb:9-18 | a tag's head is a highest revision whose version bears the tag, and no tagged published version of that consumer and provider comes after it |
| ViewMeanings.HeadMatrixShows | db/ddl_statements/head_matrix_v002.rb:2-31 | both head matrices hold exactly these rows, each with the columns of the newest verification of its content and of the version that made it, or nulls when there is none |
| ViewMeanings.LatestMatrixShows | db/migrations/20180204_fix_latest_matrix_for_cv_and_pv.rb:10-34 | the latest matrix holds exactly the latest revisions with the columns of the newest verification by each provider version, and with nulls where nobody verified |
| ViewMeanings.NewestForOwners | db/ddl_statements/latest_verification_ids_for_consumer_and_provider.rb:12-25 | the id for a consumer and a provider is that of their newest verification, by the columns of the verifications |
| ViewMeanings.NewestForTag | db/ddl_statements/latest_verification_ids_for_consumer_version_tags.rb:1-66 | the id for a tag is that of the newest verification of the content of a latest revision whose version bears the tag |
| ViewMeanings.HeadTagShows | db/ddl_statements/head_pact_tags.rb:1-10 | a publication has a head tag exactly when it is a head under that tag |
| Publishing.ConsistentStoreIsCurrent | db/migrations/20180720_create_latest_pact_publication_ids.rb:3-18 | the write path's invariant implies what the views assume of the foreign keys, the index table and the pact versions' owners |
| Publishing.PopulatedStoreConsistent | db/migrations/20180721_migrate_latest_pact_publication_ids.rb:4-5 | the populated tables satisfy the invariant |
| Publishing.PublishedServes | lib/pact_broker/pacts/service.rb:52-63 | after a publish the pact served for the version has the published content; unchanged content makes no revision, new content the next one |
| Publishing.PublishedShows | lib/pact_broker/pacts/repository.rb:43-90 | in the rows: afterwards the highest revision of the pact is in the index and has the published digest; no publication is added when it had it before, else one, as revision 1 or next to the highest, with the columns of the call |
| Publishing.PublishedStaysConsistent | lib/pact_broker/pacts/repository.rb:43-103 | publishing keeps the index at the highest revision of every pact |
| Publishing.DeletionIsSafe | db/migrations/20180720_create_latest_pact_publication_ids.rb:3-18 | the cascade leaves the index right if and only if no pact loses its highest revision and keeps a lower one |
| Publishing.WithoutVersionConsistent | lib/pact_broker/versions/service.rb:60-66 | deleting a version with its publications keeps the invariant |
| Publishing.StepConsistent | db/migrations/20180720_create_latest_pact_publication_ids.rb:3-18 | every enabled operation, also inserting a version and moving others up, keeps the invariant |
| Publishing.StepOrdered | lib/pact_broker/domain/version.rb:223-227 | after every operation no two versions of a pacticipant share a place, and every version has one if every version had one |
| Publishing.NumberAlwaysFits | lib/pact_broker/domain/order_versions.rb:23-39 | a new version of a known pacticipant can always be inserted in the order of the numbers |
| Publishing.RunConsistent | db/migrations/20180720_create_latest_pact_publication_ids.rb:3-18 | so does every run of publishing and deleting |
| Publishing.ViewsAgreeAfterRun | db/ddl_statements/latest_pact_publications_by_consumer_versions.rb:1-16 | over the tables any run from a consistent store leaves, versions 2 and 3 are equal and version 1 equals them if and only if every published version has an order, which is so when every version had one at the start; what the views assume of the index and of owners holds |
| PactRepository.Repository.PublishPact | lib/pact_broker/pacts/service.rb:52-63 | provider, consumer and version are found by name and number, or each is added by one operation; then comes the publish: no publication or content goes, only the pact itself gets a publication, and the pact is served with the published content |
| PactRepository.Repository.FindOrCreatePacticipant | lib/pact_broker/pacticipants/repository.rb:46-49 | the named pacticipant; nothing is inserted when the name is there, else only it, and names stay unique |
| PactRepository.Repository.FindOrCreateVersion | lib/pact_broker/versions/repository.rb:108-112 | the pacticipant's version of that number; nothing changes when the number is there, else it is the only insertion, in the order of the numbers |
| PactRepository.Repository.CreateVersion | lib/pact_broker/domain/version.rb:223-227 | the only operation is the insertion of that version in the order of the numbers; the numbers of a pacticipant stay unique |
| PactRepository.Repository.FindOrCreatePactVersion | lib/pact_broker/pacts/repository.rb:352-355 | content is found by consumer, provider and digest, or stored once |
| PactRepository.Repository.UpsertPublication | lib/sequel/plugins/upsert.rb:66-113 | a new row, or on a clash of consumer version, provider and revision the overwritten row with its id and creation date kept |
| PactRepository.Repository.UpdateLatestPublicationIds | lib/pact_broker/pacts/repository.rb:92-103 | the only row of the publication's pact is its own, rows of other pacts stay; an index that was current before the publication was inserted is current again |
| PactRepository.Repository.FindByVersionAndProvider | lib/pact_broker/pacts/repository.rb:185-190 | the lookup through the index returns the highest revision of the pact, or nothing |
| PactRepository.Repository.CreateOrUpdatePact | lib/pact_broker/pacts/service.rb:56-62 | for a version and a provider that are there the new state is the published state of the specification and keeps the invariant |
| PactRepository.Repository.CreatePact | lib/pact_broker/pacts/repository.rb:43-60 | a pact without revisions gets revision 1 and its index row |
| PactRepository.Repository.UpdatePact | lib/pact_broker/pacts/repository.rb:62-90 | changed content gets the next revision number, unchanged content no revision |
| PactRepository.Repository.DeletePublications | db/migrations/20180720_create_latest_pact_publication_ids.rb:3-18 | exactly the named publications and their index rows go, and a consistent store stays so if and only if no pact loses its highest revision and keeps a lower one |
| PactRepository.Repository.DeletePact | lib/pact_broker/pacts/repository.rb:105-115 | all revisions of the pact go and nothing else, the invariant stays, and a store that could be published to still can |
| PactRepository.Repository.DeleteAllBetween | lib/pact_broker/pacts/repository.rb:128-137 | exactly the publications between the two pacticipants go, or those of tagged versions; pacticipants and versions stay, and with them the invariant and that it can be published |
| PactRepository.Repository.DeleteVersion | lib/pact_broker/versions/service.rb:60-66 | the version and its publications go and nothing else, the invariant stays, and it can still be published |
| Verifying.PopulatedIsLast | db/migrations/20180724_migrate_latest_verification_ids.rb:4-12 | the populated verification index is the last entry of every group |
| Verifying.WithVerificationConsistent | lib/pact_broker/verifications/repository.rb:22-48 | saving a verification and upserting its index row keeps the index at the last verification of every pair |
| Verifying.DeletionIsSafe | db/migrations/20180723_create_latest_verification_ids.rb:3-17 | deleting verifications leaves the index right if and only if no group loses its last one and keeps an earlier one |
| Verifying.StepConsistent | lib/pact_broker/verifications/repository.rb:22-151 | recording a verification, deleting by provider version and deleting between two pacticipants keep the invariant |
| Verifying.RunConsistent | lib/pact_broker/verifications/repository.rb:22-151 | so does every run of them |
| VerificationRepository.Repository.Populate | db/migrations/20180724_migrate_latest_verification_ids.rb:4-12 | the loop inserts the grouped maxima |
| VerificationRepository.Repository.Create | lib/pact_broker/verifications/repository.rb:22-32 | the provider's version is found or created by number; the saved row carries what was recorded, names the version, copies consumer and provider from the pact version and is the last of its group, the index follows, and the latest matrix shows the recorded success for that pact version and provider version; the copies agree afterwards if and only if they did and the pact version's other verifications have its owners |
| VerificationRepository.Repository.Save | lib/pact_broker/verifications/repository.rb:24-31 | the same for a version that is there |
| VerificationRepository.Repository.UpdateLatestVerificationId | lib/pact_broker/verifications/repository.rb:38-48 | there is a row of the verification's pact version and provider version, every such row is its own, other rows stay; an index that was right before the verification was saved is right again |
| VerificationRepository.Repository.Delete | lib/pact_broker/verifications/repository.rb:34-36 | the invariant survives if and only if whole groups go |
| VerificationRepository.Repository.DeleteByProviderVersion | lib/pact_broker/verifications/repository.rb:143-145 | exactly the verifications by that version go, and the index stays right |
| VerificationRepository.Repository.DeleteAllBetween | lib/pact_broker/verifications/repository.rb:147-151 | exactly the verifications between the two pacticipants go, and the index stays right |
| VerificationRepository.LatestIsGrouped | db/migrations/20180724_migrate_latest_verification_ids.rb:4-12 | a table of the highest id per group, without the groups that have nulls, is the inserted set |
| VerificationRepository.LatestMatrixShows | lib/pact_broker/verifications/repository.rb:22-32 | beside each latest revision with its content the latest matrix shows the last verification by a provider version, as it was recorded, and no other by that version |
| OrderVersions.MovedUnique | lib/pact_broker/domain/order_versions.rb:23-47 | after every step of moving versions up from the last one, no two versions of a pacticipant share an order and the gap is free |
| OrderVersions.PlacedInOrder | lib/pact_broker/domain/order_versions.rb:23-47 | with the new version in its place the listing by order is complete and in the order of the numbers, and the unique index holds |
| OrderVersions.PlacedOrders | lib/pact_broker/domain/order_versions.rb:23-47 | the versions before the place move up by one, the new one takes the order after the first it comes after or 0, everything else stays |
| OrderVersions.TagsLeftBehind | lib/pact_broker/domain/order_versions.rb:41-52 | the orders copied to tags stay right if and only if no tagged version moved up: nothing updates them |
| OrderVersions.HeadOrdersLeftBehind | db/ddl_statements/latest_tagged_pact_consumer_version_orders.rb:1-34 | after versions moved up the third and the fourth definition of the head orders agree if and only if no tagged version with a pact moved |
| OrderVersions.WithVersionOrdered | lib/pact_broker/domain/order_versions.rb:23-39 | inserting and placing a version leaves no two versions of a pacticipant in one place, and every version in one if every version was |
| OrderVersions.VersionsTable.List | lib/pact_broker/domain/order_versions.rb:26 | the ids of the pacticipant's ordered versions, all of them, the last one first |
| OrderVersions.VersionsTable.SetSemanticOrder | lib/pact_broker/domain/order_versions.rb:23-39 | the loop over the listing leaves the table with the versions after the new one moved up by one and the new one in the gap |
| Webhooks.InV2 | db/ddl_statements/latest_triggered_webhooks.rb:11-38 | version 2 holds a triggered webhook exactly when it is latest by date and then by id |
| Webhooks.OneRowPerWebhook | db/ddl_statements/latest_triggered_webhooks.rb:11-38 | there is exactly one row per webhook, consumer and provider, even with tied dates |
| Webhooks.InV3 | db/ddl_statements/latest_triggered_webhooks.rb:58-66 | version 3 holds a triggered webhook exactly when it has the highest id of its webhook, pacticipants and event |
| Webhooks.V3AgreesWithV2 | db/ddl_statements/latest_triggered_webhooks.rb:11-66 | the versions agree if and only if each group has one event name and the highest id is the last by date |
| Normalisation.Migrator.MoveContents | db/migrations/000017_migrate_json_content_to_pact_version_content_table.rb:6-12 | every pact is stamped with its digest; each digest is stored once, with the content of the first pact that has it |
| Normalisation.Migrator.PopulatePactVersions | db/migrations/000024_populate_pact_versions.rb:3-6 | each referenced content becomes one pact version with the consumer and provider of some pact that has it; unreferenced ones go, referenced ones stay |
| Normalisation.Migrator.PopulatePublications | db/migrations/000027_populate_pact_publications.rb:3-7 | every pact becomes exactly one publication with revision 1 and the pact version of its digest |
| Normalisation.Migrate | db/migrations/000017_migrate_json_content_to_pact_version_content_table.rb:6-12 | the three migrations in order |
| Normalisation.PublishedAsDigest | db/migrations/000027_populate_pact_publications.rb:3-7 | every pact is published as exactly one pact version, the only one with its digest, whose content some pact had |
| Normalisation.MigratedColumns | db/migrations/000027_populate_pact_publications.rb:3-7 | in the columns: the publication is revision 1, dated by the pact's last update, and its pact version has the pact's digest and content and date of one pact with that digest |
| Normalisation.LosslessWithoutCollision | db/migrations/000017_migrate_json_content_to_pact_version_content_table.rb:6-12 | every publication's content is the pact's own JSON if and only if no two different contents have the same digest |
| Normalisation.OwnersKeptUnlessShared | db/migrations/000024_populate_pact_versions.rb:3-6 | publications refer to pact versions of their own consumer and provider if and only if no other pair shares a content |
| Normalisation.MigratedOwners | db/migrations/20180616_migrate_consumer_ids_for_pact_publications.rb:4-6 | over the migrated tables what the views assume of the owners of pact versions holds if and only if no other pair shares a content |
| Backfill.Tables.FindOrCreate | db/migrations/000044_populate_verifications_provider_version_id.rb:7-18 | the version the line names, existing or inserted, keeping numbers and ids unique |
| Backfill.Tables.ResolveLines | db/migrations/000044_populate_verifications_provider_version_id.rb:3-20 | the loop creates the missing versions and points each verification to the one it names |
| Backfill.Tables.PopulateProviderVersionIds | db/migrations/000044_populate_verifications_provider_version_id.rb:3-20 | afterwards every verification points to the version with its recorded number under its pact version's provider, and all else about it is as before |
| Backfill.OneVersionPerMissingPair | db/migrations/000044_populate_verifications_provider_version_id.rb:7-18 | exactly one version per provider and number, new exactly when there was none |
| Backfill.NothingToCreate | db/migrations/000044_populate_verifications_provider_version_id.rb:7-18 | the versions are unchanged if and only if every pair was there |
| Backfill.ResolvedVersionIsProviders | db/migrations/000044_populate_verifications_provider_version_id.rb:3-20 | the id a verification ends up with belongs to its pact version's provider |
| Dsv.Next | public/Network Graph_files/d3.v3.js:1721-1752 | one token: end of file at the end, end of line only after a line end was met, otherwise a field that leaves less to read |
| Dsv.Parser.Token | public/Network Graph_files/d3.v3.js:1721-1752 | the stateful token function returns the specified token and leaves the specified rest |
| Dsv.Parser.FindClosingQuote | public/Network Graph_files/d3.v3.js:1726-1732 | the loop stops at the first quote that is not doubled, or past the text when there is none |
| Dsv.Parser.QuotedField | public/Network Graph_files/d3.v3.js:1725-1742 | a quoted field with doubled quotes undone |
| Dsv.Parser.ScanPlain | public/Network Graph_files/d3.v3.js:1743-1751 | an unquoted field ends at the first delimiter or line end, CRLF counting as one |
| Dsv.Parser.PlainField | public/Network Graph_files/d3.v3.js:1743-1751 | an unquoted field as specified |
| Dsv.Parser.Line | public/Network Graph_files/d3.v3.js:1754-1758 | the fields of one line, up to its end |
| Dsv.Parser.ParseRows | public/Network Graph_files/d3.v3.js:1719-1763 | without a callback the table the specification reads from the text |
| Dsv.Parser.ParseRowsWith | public/Network Graph_files/d3.v3.js:1753-1762 | with a callback what it makes of the rows of that table, each given with its number, without those it drops |
| DsvRoundTrip.RoundTrip | public/Network Graph_files/d3.v3.js:1719-1790 | parsing what was printed gives back the table if and only if all rows are non-empty, the very last field is not empty, and fields with a carriage return also have a quote, delimiter or line feed |
| DsvRoundTrip.LineEnds | public/Network Graph_files/d3.v3.js:1719-1766 | a printed row is read back from any text it begins, whether its line ends with LF, CR LF or CR |
| DsvRoundTrip.FieldPrinted | public/Network Graph_files/d3.v3.js:1786-1788 | a field without quote, delimiter and LF is printed as it is, any other between quotes |
| DsvRoundTrip.QuotesDoubled | public/Network Graph_files/d3.v3.js:1786-1788 | and there each quote twice and nothing else changed |
| DsvRoundTrip.RowsPrinted | public/Network Graph_files/d3.v3.js:1780-1785 | fields are printed with the delimiter between them and rows with an LF |
| DsvRoundTrip.FieldReadBack | public/Network Graph_files/d3.v3.js:1786-1788 | a printed field is read back with the separator after it: delimiter, LF, CR LF or CR |
| DsvRoundTrip.FieldsReadBack | public/Network Graph_files/d3.v3.js:1780-1785 | reading follows printing field by field and goes astray exactly at the first field the format cannot express |
| DsvRoundTrip.ParseFormatted | public/Network Graph_files/d3.v3.js:1719-1790 | what the stateful parser returns for the printed table is the table, exactly for those tables |
| DataJoin.NodesPartition | public/Network Graph_files/d3.v3.js:825-851 | every node exits exactly when no datum takes it; a node takes at most one datum, and that has its key |
| DataJoin.DataPartition | public/Network Graph_files/d3.v3.js:836-846 | a datum is served, by an old node or a new one and never both, exactly when it is the first of its key |
| DataJoin.JoinIs | public/Network Graph_files/d3.v3.js:822-851 | a datum goes to the first node of its key unless a datum before it has the key, enters when no node has it, and a node leaves when one before it has its key or no datum has it |
| DataJoin.ArraysHold | public/Network Graph_files/d3.v3.js:822-851 | the three arrays hold the nodes and data of the join and nothing elsewhere |
| DataJoin.BindByKey | public/Network Graph_files/d3.v3.js:825-851 | the three arrays are those of the join of keys; an updated node carries its own datum and an exiting one keeps its own |
| DataJoin.IndexNodes | public/Network Graph_files/d3.v3.js:827-835 | the first node of each key is in the table, the others exit |
| DataJoin.IndexHoldsFirst | public/Network Graph_files/d3.v3.js:827-835 | the table of nodes maps exactly the keys that occur to the first node that has them |
| DataJoin.BindData | public/Network Graph_files/d3.v3.js:836-846 | the second loop serves each key once and takes it from the table |
| DataJoin.Leave | public/Network Graph_files/d3.v3.js:847-851 | the third loop makes the remaining nodes exit |
| DataJoin.BindByIndex | public/Network Graph_files/d3.v3.js:853-868 | by position: nodes with data update, gaps and surplus data enter, surplus nodes exit |
| Timer.FlushedHolds | public/Network Graph_files/d3.v3.js:1843-1855 | flushing keeps exactly the entries that are not flagged |
| Timer.FlushedConcat | public/Network Graph_files/d3.v3.js:1843-1855 | flushing keeps the order: it can be done part by part |
| Timer.FirstDueIsMinimum | public/Network Graph_files/d3.v3.js:1843-1855 | the time returned is the least since + delay of the timers that stay, infinite when there is none |
| Timer.RunKeepsTimers | public/Network Graph_files/d3.v3.js:1793-1855 | over any run of registering and flushing no callback has two timers, and one that never finishes keeps its timer |
| Timer.FiredStays | public/Network Graph_files/d3.v3.js:1812-1855 | a timer goes exactly when its turn came, since + delay <= now at a frame and no delay at a flush, and its callback finished; every other one stays |
| Timer.RunEndsTimer | public/Network Graph_files/d3.v3.js:1793-1855 | over a run a timer that is not set anew is in the queue with its time and delay until the first event at which it ends, and then its callback has none |
| Timer.CalledSets | public/Network Graph_files/d3.v3.js:1793-1804 | the timer a call sets: without delay from now, with its delay from now, or from the given time; two arguments with an infinite delay do nothing |
| Timer.TimerQueue.CallbacksOnce | public/Network Graph_files/d3.v3.js:1793-1808 | the list and the table hold the same timers, so no callback occurs twice |
| Timer.TimerQueue.Register | public/Network Graph_files/d3.v3.js:1794-1808 | a callback with a timer has it reset in place, another gets a new id and a timer in front; two arguments with an infinite delay change nothing |
| Timer.TimerQueue.Fire | public/Network Graph_files/d3.v3.js:1815-1820 | exactly the due timers are flagged by what their callbacks return |
| Timer.TimerQueue.Step | public/Network Graph_files/d3.v3.js:1815-1821 | after a frame exactly the timers are gone that were due, since + delay <= now, and have finished; the time it reports is the least at which another one is due |
| Timer.TimerQueue.FlushImmediate | public/Network Graph_files/d3.v3.js:1834-1842 | exactly the timers without a delay whose callback has finished are gone |
| Timer.TimerQueue.Flush | public/Network Graph_files/d3.v3.js:1843-1855 | list and table lose the flagged timers and keep the others in order; the result is the first time one is due |
| Timer.TimerQueue.Unlink | public/Network Graph_files/d3.v3.js:1846-1848 | the table entry goes and the list is closed over the timer |
| Bundle.Ancestors | public/Network Graph_files/d3.v3.js:5025-5034 | the node and its ancestors up to the root; the loop ends |
| Bundle.LeastCommonAncestor | public/Network Graph_files/d3.v3.js:5035-5044 | the first node of either chain that is also on the other, or nothing for nodes of different trees; the loop ends |
| Bundle.BelowIsUnshared | public/Network Graph_files/d3.v3.js:5035-5044 | below the place where the chains part nothing is shared |
| Bundle.UpAndDownIsPath | public/Network Graph_files/d3.v3.js:5012-5024 | the two chains joined at the common ancestor climb, then descend, and repeat no node |
| Bundle.BundlePath | public/Network Graph_files/d3.v3.js:5012-5024 | the path starts at the source, ends at the target, follows parent links, repeats no node and turns at the least common ancestor |
| Quadtree.EndsExactly | public/Network Graph_files/d3.v3.js:4540-4571 | inserting a point ends if and only if the leaf it is led to is empty or holds a point that is coincident or whose nearest point of the leaf's square is another one (for a square without extent: that lies in another quadrant) |
| Quadtree.InsideEnds | public/Network Graph_files/d3.v3.js:4540-4567 | so it ends for every point inside the root square |
| Quadtree.InsertIs | public/Network Graph_files/d3.v3.js:4540-4567 | the result does not depend on how deep the recursion is allowed to go |
| Quadtree.InsertWithin | public/Network Graph_files/d3.v3.js:4540-4567 | every point stays inside the square of its node |
| Quadtree.InsideBuilds | public/Network Graph_files/d3.v3.js:4575-4581 | all data inside the root square are inserted |
| Quadtree.NeverEnds | public/Network Graph_files/d3.v3.js:4569-4571 | two insertions that do not end, one beyond a corner of the square and one beside it |
| Quadtree.InsertItems | public/Network Graph_files/d3.v3.js:4540-4567 | the points of the tree are those before and the new one, with multiplicity |
| Quadtree.InsertLeads | public/Network Graph_files/d3.v3.js:4540-4567 | every point is in the quadrant of each of its ancestors' squares that contains it |
| Quadtree.QuartersHold | public/Network Graph_files/d3.v3.js:4560-4567 | in coordinates: the four children are the quarters of the square, points on the middle belong right of it or below it |
| Quadtree.LeafKeeps | public/Network Graph_files/d3.v3.js:4543-4553 | a leaf's point stays when the new one is less than a hundredth away, both axes added, and moves into a child otherwise |
| Quadtree.InsertTwinned | public/Network Graph_files/d3.v3.js:4540-4559 | a node that is not a leaf keeps a point of its own only while one below it is too close to be told apart |
| Quadtree.BuildTwinned | public/Network Graph_files/d3.v3.js:4575-4581 | so it is throughout the tree of a data set |
| Quadtree.BuildItems | public/Network Graph_files/d3.v3.js:4575-4581 | the tree of a data set holds exactly its points |
| Quadtree.BuildLeads | public/Network Graph_files/d3.v3.js:4575-4581 | and each of them where its quadrants lead to |
| Quadtree.VisitFinds | public/Network Graph_files/d3.v3.js:4618-4626 | a visit that prunes only squares a point is not in reaches the node of the point |
| Quadtree.ItemsInside | public/Network Graph_files/d3.v3.js:4618-4626 | every point below a node is inside the square the node is visited with |
| Quadtree.InsertCharge | public/Network Graph_files/d3.v3.js:5376-5402 | an inserted point adds its share to the root's charge |
| Quadtree.RootCharge | public/Network Graph_files/d3.v3.js:5376-5402 | the root's charge is alpha times the plain sum of the charges of the data's indexes, whatever the tree's shape |
| QuadtreeNodes.QuadNode.Insert | public/Network Graph_files/d3.v3.js:4540-4559 | insertion into the nodes in place yields the specified tree |
| QuadtreeNodes.QuadNode.InsertChild | public/Network Graph_files/d3.v3.js:4560-4567 | the descent in place yields the specified tree |
| QuadtreeNodes.QuadNode.Accumulate | public/Network Graph_files/d3.v3.js:5376-5402 | the node's charge is the sum over the tree below it |
| QuadtreeNodes.RootSquare | public/Network Graph_files/d3.v3.js:4514-4539 | the root square holds all data and touches them on three sides; there is none exactly when there are no data |
| QuadtreeNodes.BuildTree | public/Network Graph_files/d3.v3.js:4568-4581 | the nodes built in place are the tree of the data in their root square, the empty leaf when there are none |
| QuadtreeNodes.ChargedTree | public/Network Graph_files/d3.v3.js:5376-5402 | the built tree's root holds alpha times the sum of the charges |
| Tiling.Refine | public/Network Graph_files/d3.v3.js:6219-6248 | a tile of a tiling may be replaced by a tiling of it |
| Tiling.Absorb | public/Network Graph_files/d3.v3.js:6230-6244 | two tiles may be replaced by a rectangle with the points of both |
| Tiling.ReversedTiles | public/Network Graph_files/d3.v3.js:6170-6187 | a tiling is one in any order of laying, last child first |
| Treemap.PlaceRow | public/Network Graph_files/d3.v3.js:6221-6246 | the cells are those of the row (RowCells), they tile the strip, and with exact numbers each has its area |
| Treemap.RowCellsInLine | public/Network Graph_files/d3.v3.js:6221-6246 | the cells of a row stand side by side from one end of the strip to the other, each as thick as the strip and starting where the one before it ends |
| Treemap.RowCellLengths | public/Network Graph_files/d3.v3.js:6221-6246 | every cell but the last is as long as its area needs in the strip, rounded, unless the strip ends before |
| Treemap.Position | public/Network Graph_files/d3.v3.js:6219-6248 | the cells of the row are laid along the side in a strip as thick as their areas need, a row and what is left tile the rectangle, nothing is left after the last row; with exact numbers cells have their areas and the others' is left |
| Treemap.ExactRow | public/Network Graph_files/d3.v3.js:6220-6222 | with exact numbers a row is as thick as its area asks and leaves the area of the others |
| Treemap.Worst | public/Network Graph_files/d3.v3.js:6208-6218 | the score is the elongation of the worst cell, infinite for a row without area or a side without length |
| TreemapLayout.PadWithin | public/Network Graph_files/d3.v3.js:6311-6327 | for any paddings the padded rectangle is inside the node if and only if on both axes the paddings are not negative where they leave room, and differ by no more than the node's size where they do not |
| TreemapLayout.PadEdges | public/Network Graph_files/d3.v3.js:6311-6327 | each edge moves in by its padding as long as that leaves room, else the rectangle is the middle between both |
| TreemapLayout.Scale | public/Network Graph_files/d3.v3.js:6157-6163 | every child's area is its share of the space, never negative |
| TreemapLayout.SharesAddUp | public/Network Graph_files/d3.v3.js:6157-6163 | when the children's values add up to the parent's, their areas add up to the space |
| TreemapLayout.NoShare | public/Network Graph_files/d3.v3.js:6157-6163 | values that are not positive, and all values when the total is negative, have no area |
| TreemapLayout.LayRow | public/Network Graph_files/d3.v3.js:6177-6187 | closing a row keeps what is laid and what is left a tiling of the whole; the row's cells are those of its strip, side by side along it, and the strip is as thick as their areas need |
| TreemapLayout.RowAt | public/Network Graph_files/d3.v3.js:6169-6187 | every row starts where the one before it ends, takes a strip of the rectangle that one left along its shorter side, its cells are laid in a line through the strip and tile it, and it grew exactly as long as its worst cell did not get worse |
| TreemapLayout.RowGrowth | public/Network Graph_files/d3.v3.js:6172-6186 | a squarified row takes another child exactly as long as the worst score with it is no worse than without it |
| TreemapLayout.CellShape | public/Network Graph_files/d3.v3.js:6208-6218 | with exact numbers the elongation that worst computes from areas, the row's area and its side is the shape of the cell that is laid: length over thickness times the ratio, or the inverse |
| TreemapLayout.OneRow | public/Network Graph_files/d3.v3.js:6169-6187 | sliced, diced and slice-diced children stand in one line through the whole rectangle, across it for the side dx and down it for dy; for a square both mean across |
| TreemapLayout.LayRows | public/Network Graph_files/d3.v3.js:6169-6187 | the loop ends and the cells tile the rectangle; with exact numbers areas that add up are met; the cells are those of rows as described by RowAt and RowCellsInLine, in the other modes of one row |
| TreemapLayout.LayChildren | public/Network Graph_files/d3.v3.js:6164-6188 | the children's cells tile the padded rectangle in every mode, in such rows, the first along the side of the mode |
| TreemapHierarchy.SquarifyTree | public/Network Graph_files/d3.v3.js:6164-6190 | everywhere below a node the children's cells tile the padded rectangle of their parent, in the rows that the mode and the ratio choose |
| TreemapHierarchy.Layout | public/Network Graph_files/d3.v3.js:6249-6260 | the root takes the whole size and everything below is laid out in such rows |
| TreemapHierarchy.ModesLay | public/Network Graph_files/d3.v3.js:6164-6188 | in a laid hierarchy sliced children stand side by side through the padded rectangle of their parent, diced ones one below the other, except in a square, slice-diced ones by depth, and the first squarified row along the shorter side, said of the children's coordinates |
| TreemapHierarchy.LeavesTile | public/Network Graph_files/d3.v3.js:6164-6190 | without padding the leaves of the hierarchy tile the root's rectangle |
| TreemapHierarchy.Proportional | public/Network Graph_files/d3.v3.js:6157-6190 | with exact numbers a child's area is to its parent's as its value is |
| Pagination.TotalPages | public/javascripts/pagination.js:584-586 | the least number of pages that hold all entries |
| Pagination.Window | public/javascripts/pagination.js:110-126 | the window has min(2 * range + 1, total) pages inside 1..total and contains a valid current page |
| Pagination.PageNumbers | public/javascripts/pagination.js:166-208 | the emitted items are those of the specification |
| Pagination.WindowCovers | public/javascripts/pagination.js:166-208 | from 1 to the last page numbers follow each other except that an ellipsis stands for at least two pages, and exactly the current page is marked |
| Pagination.Render | public/javascripts/pagination.js:103-143 | the window around the current page is computed and its items emitted; with first and last page shown beside an ellipsis they cover all pages around every page there is, the current one marked |
| Pagination.NumbersShown | public/javascripts/pagination.js:166-208 | which numbers are among the items: the window's, up to two before and after it, and where more are left out the first and the last with an ellipsis, if asked for |
| Pagination.FragmentsAreData | public/javascripts/pagination.js:567-586 | the pages together are the data if and only if the announced total is not short of it |
| Pagination.PageHolds | public/javascripts/pagination.js:567-576 | entry i of a page is as far into the data as the pages before it are long, and a page before the end is full |
| Counterexamples.DeletingTheLastVerification | lib/pact_broker/verifications/repository.rb:34-36 | deleting a success leaves an earlier failure without an index row |
| Counterexamples.DeletingTheLatestRevision | db/migrations/20180720_create_latest_pact_publication_ids.rb:3-18 | deleting a second revision alone would leave the first one without an index row |
| Counterexamples.UnorderedVersion | db/migrations/20180721_migrate_latest_pact_publication_ids.rb:4-5 | a published version without an order: the populated index would lack its pact, and version 1 of the view does not find it |
| Counterexamples.UnverifiedTwice | db/migrations/20180726_recreate_views.rb:6-13 | a consumer version with two unverified pacts, whose row the rewritten view has twice |
| Counterexamples.SupersededVerification | db/ddl_statements/latest_verification_ids_for_consumer_and_provider.rb:1-17 | a broker whose verified content was superseded, where versions 1 and 2 differ |
| Counterexamples.NumbersAgainstIds | db/ddl_statements/head_matrix_v001.rb:2-31 | a broker whose later verification has the lower number, where the head matrices differ |
| Counterexamples.TwoEvents | db/ddl_statements/latest_triggered_webhooks.rb:11-66 | a webhook triggered by two events, where the versions differ |
| Counterexamples.TaggedVersionMoves | lib/pact_broker/domain/order_versions.rb:41-52 | a tagged version that moves up, with a stale copy and different head orders |
| Counterexamples.SharedContent | db/migrations/000024_populate_pact_versions.rb:3-6 | two consumers' pacts with one content, one of which gets a pact version of the other |
| Counterexamples.SharedContentTagged | db/migrations/20180727_recreate_latest_verification_ids_for_consumer_version_tags.rb:3-14 | a broker that meets everything but the owners of pact versions, where definitions of the newest verification per tag differ |
| Counterexamples.EmptyLastField | public/Network Graph_files/d3.v3.js:1719-1790 | a row with one empty field is not read back |
| Counterexamples.LopsidedPadding | public/Network Graph_files/d3.v3.js:6311-6327 | a padding that puts the children outside the node |
| Counterexamples.DicedSquare | public/Network Graph_files/d3.v3.js:6164-6188 | a diced square, whose children stand across it |
| Counterexamples.ShortTotal | public/javascripts/pagination.js:567-586 | an announced total that hides an entry |

## Left out

- HTTP resources, services wiring, logging, configuration and user interface: they call the modelled code.
- SQL engines: adapters, transactions, locking, and the refresh of materialised copies, which are taken to equal the views they copy.
- The intermediate definitions of the latest matrix in 20180129 (except the grouped id view) and 20180209, which were wrong and were replaced.
- Plain schema migrations, timestamps and columns no modelled query reads.
- Deleting the webhook records of deleted pacts, and merging pacts.
- `order_versions_by_date` in the repository: the machine has it as an operation with a value of the sequence that no version of the pacticipant has. Parsing of version numbers: the order of the numbers is a parameter.
- OrderVersions.VersionsTable.SetSemanticOrder: assumes that orders are not negative, which nothing declares; every order the code gives is.
- PactRepository.Repository.FindOrCreatePacticipant: compares names as they are; names that differ in case are other pacticipants, as configured with case sensitive names.
- VerificationRepository.Repository.Create: the number of the verification is a parameter (the code takes it from a sequence of its own), and so are its other contents; the tags that are read for events are not part of this model.
- SHA-1: the digest is an arbitrary function of the content.
- Printing and parsing of rows as objects.
- DataJoin.BindByKey: the key function does not change the nodes while it is called on them; the outer loop over the groups of a selection is not part of this model. That updated nodes carry their data is stated for groups without repeated nodes.
- Timer.TimerQueue.Fire: a callback that registers or flushes timers while it is called is not part of this model. Infinite delays are modelled, numbers that are not numbers are not.
- Timer.TimerQueue.Step: returns the time until which nothing is due; the request for the next frame or timeout that follows from it is not part of this model.
- Bundle.BundlePath: for one link; the loop over the links is not part of this model.
- Quadtree.InsertItems: for coordinates that are numbers; points without coordinates are ignored by the code. This and the other lemmas about insertion hold for every insertion that ends.
- Quadtree.VisitFinds: for trees whose points are inside their squares; a visit need not reach a point that was added outside.
- QuadtreeNodes.QuadNode.Accumulate: without the centre of charge and the random shift of coincident points.
- TreemapLayout.LayChildren: the rectangle that position shrinks in place is passed on as a value; the two symmetric branches of position are one method with a direction.
- TreemapLayout.Scale: a total of zero gives every child an area of zero, also when negative values cancel positive ones, where the code's areas are infinite.
- The sticky treemap layout, d3's hierarchies, and the sorting and summing that precede a layout.
- Pagination.PageNumbers: only which numbers and ellipses are emitted and which is marked; markup, hooks and option checks are not part of this model.
- The rest of d3, and the other scripts under `public`.
