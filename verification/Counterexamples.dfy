// For each property that fails somewhere an input where it does.
module Counterexamples {
  import opened Basics
  import opened Sql
  import opened Schema
  import opened Example
  import opened LatestPublications
  import opened LatestVerifications
  import opened HeadMatrix
  import opened TagHeads
  import Dsv
  import DsvRoundTrip
  import Matrix
  import Normalisation
  import OrderVersions
  import Pagination
  import Publishing
  import Tiling
  import Treemap
  import TreemapLayout
  import Verifying
  import Webhooks

  // Deleting the success alone leaves the failure without an index row.
  lemma DeletingTheLastVerification()
    ensures var s := Verifying.VerificationStore(
                       Broker(31, Some(1), Some(2)).verifications, Broker(31, Some(1), Some(2)).lv, 52);
            Verifying.Consistent(s) && !Verifying.Consistent(Verifying.WithoutVerifications(s, {51}))
  {
    var db := Broker(31, Some(1), Some(2));
    var s := Verifying.VerificationStore(db.verifications, db.lv, 52);
    BrokerLastEntries(31, Some(1), Some(2));
    Verifying.DeletionIsSafe(s, {51});
    var failure, success := Failure(31, Some(1)), Success(31, Some(2));
    assert Verifying.IsLast(s.verifications, success) && Verifying.SameGroup(success, failure);
    assert failure in s.verifications && failure.id !in {51};
  }

  // Deleting the second revision alone leaves the first one without an index row.
  lemma DeletingTheLatestRevision()
    ensures var db := Broker(31, Some(1), Some(2));
            var s := Publishing.PactStore(db.pacticipants, db.versions, db.pactVersions, db.publications, db.lpp,
              32, 42);
            Publishing.Consistent(s) && !Publishing.Consistent(Publishing.WithoutPublications(s, {41}))
  {
    var db := Broker(31, Some(1), Some(2));
    var s := Publishing.PactStore(db.pacticipants, db.versions, db.pactVersions, db.publications, db.lpp, 32, 42);
    BrokerStoreConsistent(s);
    Publishing.DeletionIsSafe(s, {41});
    assert Publishing.IsTop(s.publications, SECOND_REVISION) && Publishing.SamePact(SECOND_REVISION, FIRST_REVISION);
    assert FIRST_REVISION in s.publications && FIRST_REVISION.id !in {41};
  }

  lemma BrokerStoreConsistent(s: Publishing.PactStore)
    requires var db := Broker(31, Some(1), Some(2));
             s == Publishing.PactStore(db.pacticipants, db.versions, db.pactVersions, db.publications, db.lpp, 32, 42)
    ensures Publishing.Consistent(s)
  {
    BrokerStoreKeys(s);
    BrokerPlaced(s);
    BrokerTops();
  }

  lemma BrokerStoreKeys(s: Publishing.PactStore)
    requires s.pacticipants == {CONSUMER, PROVIDER} && s.versions == {CONSUMER_VERSION, PROVIDER_VERSION}
    requires s.pactVersions == {FIRST_CONTENT, SECOND_CONTENT} && s.publications == {FIRST_REVISION, SECOND_REVISION}
    ensures Publishing.PublicationKeys(s.publications) && Publishing.PactVersionKeys(s.pactVersions)
    ensures Publishing.PacticipantKeys(s.pacticipants) && OrderVersions.VersionKeys(s.versions)
  {
  }

  lemma BrokerPlaced(s: Publishing.PactStore)
    requires s.pacticipants == {CONSUMER, PROVIDER} && s.versions == {CONSUMER_VERSION, PROVIDER_VERSION}
    requires s.pactVersions == {FIRST_CONTENT, SECOND_CONTENT}
    ensures forall v | v in s.versions :: Publishing.Registered(s.pacticipants, v.pacticipantId)
    ensures Publishing.Placed(s, FIRST_REVISION) && Publishing.Placed(s, SECOND_REVISION)
  {
    assert CONSUMER in s.pacticipants && PROVIDER in s.pacticipants && CONSUMER_VERSION in s.versions;
    assert FIRST_CONTENT in s.pactVersions && SECOND_CONTENT in s.pactVersions;
  }

  lemma BrokerTops()
    ensures Publishing.TopEntries({FIRST_REVISION, SECOND_REVISION}) == {LatestPublication(1, 10, 2, 41, 31)}
  {
    var publications := {FIRST_REVISION, SECOND_REVISION};
    assert Publishing.IsTop(publications, SECOND_REVISION) && !Publishing.IsTop(publications, FIRST_REVISION);
    assert Publishing.IndexEntry(SECOND_REVISION) == LatestPublication(1, 10, 2, 41, 31);
  }

  // A published version without an order, as a pact of an earlier schema can leave it.
  function UnorderedBroker(): Database {
    Database({CONSUMER, PROVIDER}, {CONSUMER_VERSION.(order := None)}, {FIRST_CONTENT}, {FIRST_REVISION}, {}, {},
             {LatestPublication(1, 10, 2, 40, 30)}, {})
  }

  // The index is right, but 20180721 would not have filled it like this, and the first
  // definition of the view over it does not find the pact.
  lemma UnorderedVersion()
    ensures var db := UnorderedBroker();
            && PrimaryKeys(db) && UniqueIndexes(db) && IndexCurrent(db)
            && PopulatedIndex(AllPublications(db)) != HighestRevisions(AllPublications(db))
            && ByConsumerVersionsV1(AllPublications(db)) != ByConsumerVersionsV3(db.lpp, AllPublications(db))
  {
    var db := UnorderedBroker();
    UnorderedKeys();
    UnorderedRow();
    AllPublicationsKeyed(db);
    PopulatedIndexIsHighest(AllPublications(db));
    ByConsumerVersionsExactly(db);
  }

  lemma UnorderedKeys()
    ensures PrimaryKeys(UnorderedBroker()) && UniqueIndexes(UnorderedBroker())
  {
  }

  lemma UnorderedRow()
    ensures IndexCurrent(UnorderedBroker())
    ensures exists r :: r in AllPublications(UnorderedBroker()) && r.consumerVersionOrder.None?
  {
    var db, row := UnorderedBroker(), FirstRow().(consumerVersionOrder := None);
    assert AllPublications(db) == {row} by {
      assert Denormalise(FIRST_REVISION, CONSUMER_VERSION.(order := None), CONSUMER, PROVIDER, FIRST_CONTENT) == row;
    }
    assert row in AllPublications(db);
    assert IsHighestRevision({row}, row) && IndexRow(row) == LatestPublication(1, 10, 2, 40, 30);
  }

  // One consumer version with two pacts that nobody has verified.
  const OTHER_CONTENT := PactVersion(32, 1, 3, "ghi")
  const OTHER_PACT := Publication(43, 1, 10, 3, 1, 32, 0)

  function UnverifiedBroker(): Database {
    Database(
      {CONSUMER, PROVIDER, OTHER}, {CONSUMER_VERSION}, {FIRST_CONTENT, OTHER_CONTENT}, {FIRST_REVISION, OTHER_PACT}, {},
      {}, {LatestPublication(1, 10, 2, 40, 30), LatestPublication(1, 10, 3, 43, 32)}, {})
  }

  // The view that does not group has their row twice.
  lemma UnverifiedTwice()
    ensures var db := UnverifiedBroker();
            ViewsSound(db) && Matrix.IndexedPairsAll(db) != multiset(Matrix.IndexedPairs(db))
  {
    var db := UnverifiedBroker();
    UnverifiedKeys();
    UnverifiedRefers();
    UnverifiedIndexed();
    TwoUnverified(db);
    Matrix.IndexedPairsOnce(db);
  }

  lemma TwoUnverified(db: Database)
    requires db == UnverifiedBroker() && WellFormed(db)
    ensures !Matrix.OneUnverifiedEach(db)
  {
    UnverifiedRows();
    Matrix.LatestRowIsHighest(db, FirstRow());
    Matrix.LatestRowIsHighest(db, OtherRow());
    assert !Matrix.Verified(db, FirstRow()) && !Matrix.Verified(db, OtherRow());
  }

  lemma UnverifiedKeys()
    ensures PrimaryKeys(UnverifiedBroker()) && UniqueIndexes(UnverifiedBroker())
  {
  }

  lemma UnverifiedRefers()
    ensures var db := UnverifiedBroker();
            && ForeignKeys(db) && OrdersKnown(db) && PactVersionsOwned(db)
            && VerificationsOwned(db) && TagOrdersCopied(db)
  {
    var db := UnverifiedBroker();
    assert CONSUMER in db.pacticipants && PROVIDER in db.pacticipants && OTHER in db.pacticipants;
    assert CONSUMER_VERSION in db.versions && FIRST_CONTENT in db.pactVersions && OTHER_CONTENT in db.pactVersions;
  }

  ghost function OtherRow(): PublicationRow {
    Denormalise(OTHER_PACT, CONSUMER_VERSION, CONSUMER, OTHER, OTHER_CONTENT)
  }

  lemma UnverifiedRows()
    ensures var rows := AllPublications(UnverifiedBroker());
            && rows == {FirstRow(), OtherRow()}
            && IsHighestRevision(rows, FirstRow()) && IsHighestRevision(rows, OtherRow())
  {
    assert Denormalise(FIRST_REVISION, CONSUMER_VERSION, CONSUMER, PROVIDER, FIRST_CONTENT) == FirstRow();
  }

  lemma UnverifiedIndexed()
    ensures IndexCurrent(UnverifiedBroker()) && VerificationIndexCurrent(UnverifiedBroker())
  {
    UnverifiedRows();
    assert IndexRow(FirstRow()) == LatestPublication(1, 10, 2, 40, 30);
    assert IndexRow(OtherRow()) == LatestPublication(1, 10, 3, 43, 32);
  }

  // The verified content has been superseded: version 1 does not find its verification.
  lemma SupersededVerification()
    ensures var db := Broker(30, Some(1), Some(2));
            GroupMax(OwnedIdsV1(db)) != GroupMax(OwnedIdsV2(db))
  {
    BrokerIsSound(30, Some(1), Some(2));
    NothingCurrent(Broker(30, Some(1), Some(2)), Success(30, Some(2)));
  }

  lemma NothingCurrent(db: Database, v: Verification)
    requires ViewsSound(db) && v in db.verifications
    requires forall w, l | w in db.verifications && l in db.lpp :: w.pactVersionId != l.pactVersionId
    ensures GroupMax(OwnedIdsV1(db)) != GroupMax(OwnedIdsV2(db))
  {
    var key := OwnerKey(v.providerId, v.consumerId);
    LatestForConsumerAndProviderV1(db, key);
    assert (key, Some(v.id)) in OwnedIdsV2(db) && (key, Some(v.id)).0 in Keys(OwnedIdsV2(db));
    assert !StillCurrent(db, GroupMax(OwnedIdsV2(db))[key]);
  }

  // The later verification has the lower number: the two head matrices differ.
  lemma NumbersAgainstIds()
    ensures var db := Broker(31, Some(2), Some(1));
            HeadMatrixV1(db) != HeadMatrixV2(db)
  {
    var db := Broker(31, Some(2), Some(1));
    BrokerIsSound(31, Some(2), Some(1));
    SecondRowIsHead(31, Some(2), Some(1));
    BrokerNewest(31, Some(2), Some(1));
    LowerNumber(db, Head(SecondRow(), None, Some(1)), Success(31, Some(1)), Failure(31, Some(2)));
  }

  lemma LowerNumber(db: Database, h: Head, v: Verification, w: Verification)
    requires ViewsSound(db) && h in Heads(db) && IsNewest(db, v) && w in db.verifications
    requires v.pactVersionId == w.pactVersionId == h.pact.pactVersionId && !NotAbove(w.number, v.number)
    ensures HeadMatrixV1(db) != HeadMatrixV2(db)
  {
    HeadMatrixV1Agrees(db);
    assert !NumberedInOrder(db, h.pact.pactVersionId);
  }

  lemma SecondRowIsHead(content: Id, first: Num, second: Num)
    requires Fits(content, first, second)
    ensures Head(SecondRow(), None, Some(1)) in Heads(Broker(content, first, second))
  {
    var db := Broker(content, first, second);
    BrokerKeys(content, first, second);
    BrokerRows(content, first, second);
    AllPublicationsKeyed(db);
    OnlyVersionIsHead(db, SecondRow());
  }

  lemma OnlyVersionIsHead(db: Database, r: PublicationRow)
    requires Keyed(AllPublications(db)) && r in AllPublications(db) && r.consumerVersionOrder.Some?
    requires IsHighestRevision(AllPublications(db), r)
    requires forall q | q in AllPublications(db) :: q.consumerVersionOrder == r.consumerVersionOrder
    ensures Head(r, None, Some(1)) in Heads(db)
  {
    var base, key := OrdersOfRows(AllPublications(db)), ConsumerProvider(r.consumerId, r.providerId);
    LatestRevisionIsHighest(AllPublications(db), r);
    assert (key, r.consumerVersionOrder) in base;
    GroupMaxIs(base, key, r.consumerVersionOrder);
  }

  // A webhook triggered by two events: by id for each event there are two rows.
  lemma TwoEvents()
    ensures var published := Webhooks.TriggeredWebhook(1, "w", 1, 2, "success", 0, Some("published"));
            var verified := Webhooks.TriggeredWebhook(2, "w", 1, 2, "success", 1, Some("verified"));
            Webhooks.LatestTriggeredV2({published, verified}) != Webhooks.LatestTriggeredV3({published, verified})
  {
    var published := Webhooks.TriggeredWebhook(1, "w", 1, 2, "success", 0, Some("published"));
    var verified := Webhooks.TriggeredWebhook(2, "w", 1, 2, "success", 1, Some("verified"));
    Webhooks.V3AgreesWithV2({published, verified});
    assert Webhooks.KeyOf(published) == Webhooks.KeyOf(verified);
    assert published in {published, verified} && verified in {published, verified};
  }

  // An earlier number is inserted before a tagged version: the tag's copy goes stale,
  // and with it the fourth definition of the head orders.
  lemma TaggedVersionMoves(after: (string, string) -> bool)
    requires !after("0.9.0", "1.0.0")
    ensures var versions := map[10 := CONSUMER_VERSION, 11 := Version(11, "0.9.0", 1, None)];
            var lpp := {LatestPublication(1, 10, 2, 41, 31)};
            && OrderVersions.Listed([10], versions, 1)
            && var placed := OrderVersions.Placed(versions, [10], 11, OrderVersions.Place([10], versions, 11, after));
               && !OrderVersions.TagsCurrent({TAG}, placed)
               && LatestTaggedOrdersV3(lpp, OrderVersions.Rows(placed), {TAG}) != LatestTaggedOrdersV4(lpp, {TAG})
  {
    var versions := map[10 := CONSUMER_VERSION, 11 := Version(11, "0.9.0", 1, None)];
    var l := LatestPublication(1, 10, 2, 41, 31);
    forall id {:trigger OrderVersions.InList(id, [10])} | OrderVersions.OrderedVersion(id, versions, 1)
      ensures OrderVersions.InList(id, [10])
    {
    }
    OrderVersions.PlaceIs([10], versions, 11, after, 1);
    OrderVersions.TagsLeftBehind(versions, [10], 11, 1, {TAG});
    assert TAG.versionId in [10][..1] && TAG in {TAG} && l in {l};
    OrderVersions.HeadOrdersLeftBehind(versions, [10], 11, 1, {l}, {TAG});
  }

  // Two consumers whose pacts with one provider have the same content: one of them is
  // published with a pact version of the other.
  lemma SharedContent(
      digest: string -> string, stored: set<Normalisation.StoredVersion>,
      publications: set<Normalisation.FirstPublication>)
    requires Normalisation.Migrated(digest, SharingVersions(), SharingPacts(), stored, publications)
    ensures exists p, v ::
              && p in SharingPacts() && Normalisation.PublishedAs(stored, publications, p, v)
              && !Normalisation.BelongsTo(SharingVersions(), v, p)
  {
    Normalisation.OwnersKeptUnlessShared(digest, SharingVersions(), SharingPacts(), stored, publications);
    var p, q := Normalisation.Pact(1, 10, 3, "{}", None, 0, 0), Normalisation.Pact(2, 11, 3, "{}", None, 0, 0);
    assert CONSUMER_VERSION in SharingVersions() && Normalisation.HasConsumer(SharingVersions(), p, 1);
    assert !Normalisation.HasConsumer(SharingVersions(), q, 1);
    assert p in SharingPacts() && q in SharingPacts();
  }

  function SharingVersions(): set<Version> { {CONSUMER_VERSION, Version(11, "1.0.0", 2, Some(0))} }

  function SharingPacts(): set<Normalisation.Pact> {
    {Normalisation.Pact(1, 10, 3, "{}", None, 0, 0), Normalisation.Pact(2, 11, 3, "{}", None, 0, 0)}
  }

  // The migrations do run on them.
  method MigrateShared(digest: string -> string) returns (m: Normalisation.Migrator)
    ensures Normalisation.Migrated(digest, SharingVersions(), SharingPacts(), m.stored, m.publications)
  {
    m := Normalisation.Migrate(digest, SharingVersions(), SharingPacts());
  }

  // A broker with such pacts: OTHER's pact has the content of CONSUMER's, and is tagged.
  const OTHER := Pacticipant(3, "Baz")
  const OTHER_VERSION := Version(11, "1.0.0", 3, Some(0))
  const SHARING := Publication(42, 3, 11, 2, 1, 30, 0)

  function SharingBroker(): Database {
    Database(
      {CONSUMER, PROVIDER, OTHER}, {CONSUMER_VERSION, PROVIDER_VERSION, OTHER_VERSION}, {FIRST_CONTENT},
      {FIRST_REVISION, SHARING}, {Tag(11, "prod", Some(0), 2)}, {Success(30, Some(1))},
      {LatestPublication(1, 10, 2, 40, 30), LatestPublication(3, 11, 2, 42, 30)},
      {LatestVerification(1, 30, 2, 20, 51)})
  }

  // It meets all that the views assume but the owners of pact versions. The second
  // definition finds the tagged pact verified; the one that 20180727 installed does not,
  // as it takes the owner for the consumer.
  lemma SharedContentTagged()
    ensures var db := SharingBroker();
            && Declared(db) && OrdersKnown(db) && VerificationsOwned(db) && TagOrdersCopied(db)
            && IndexCurrent(db) && VerificationIndexCurrent(db) && !PactVersionsOwned(db)
            && GroupMax(TaggedIdsV2(db)) != GroupMax(TaggedIds20180727(db))
  {
    SharingKeys();
    SharingIndexes();
    SharingRefers();
    SharingOwners();
    SharingIndexed();
    SharingVerificationIndexed();
    SharingTagged();
    assert TagKey(2, 3, "prod") in GroupMax(TaggedIdsV2(SharingBroker())).Keys;
  }

  lemma SharingTagged()
    ensures TagKey(2, 3, "prod") in Keys(TaggedIdsV2(SharingBroker()))
    ensures TagKey(2, 3, "prod") !in Keys(TaggedIds20180727(SharingBroker()))
  {
    var db := SharingBroker();
    var v, l, t := Success(30, Some(1)), LatestPublication(3, 11, 2, 42, 30), Tag(11, "prod", Some(0), 2);
    assert v in db.verifications && l in db.lpp && t in db.tags && PROVIDER_VERSION in db.versions;
    var q := (TagKey(PROVIDER_VERSION.pacticipantId, l.consumerId, t.name), Some(v.id));
    assert q in TaggedIdsV2(db) && q.0 == TagKey(2, 3, "prod");
  }

  lemma SharingKeys()
    ensures PrimaryKeys(SharingBroker())
  {
  }

  lemma SharingIndexes()
    ensures UniqueIndexes(SharingBroker())
  {
  }

  lemma SharingRefers()
    ensures ForeignKeys(SharingBroker())
  {
    var db := SharingBroker();
    assert CONSUMER in db.pacticipants && PROVIDER in db.pacticipants && OTHER in db.pacticipants;
    assert CONSUMER_VERSION in db.versions && PROVIDER_VERSION in db.versions && OTHER_VERSION in db.versions;
    assert FIRST_CONTENT in db.pactVersions;
  }

  lemma SharingOwners()
    ensures var db := SharingBroker();
            OrdersKnown(db) && VerificationsOwned(db) && TagOrdersCopied(db) && !PactVersionsOwned(db)
  {
    var db := SharingBroker();
    assert VerificationOwned(db, Success(30, Some(1)));
    assert SHARING in db.publications && FIRST_CONTENT in db.pactVersions && !PublicationOwned(db, SHARING);
  }

  ghost function SharingRow(): PublicationRow {
    Denormalise(SHARING, OTHER_VERSION, OTHER, PROVIDER, FIRST_CONTENT)
  }

  lemma SharingRows()
    ensures AllPublications(SharingBroker()) == {FirstRow(), SharingRow()}
  {
    assert Denormalise(FIRST_REVISION, CONSUMER_VERSION, CONSUMER, PROVIDER, FIRST_CONTENT) == FirstRow();
  }

  lemma SharingIndexed()
    ensures IndexCurrent(SharingBroker())
  {
    SharingRows();
    assert IsHighestRevision({FirstRow(), SharingRow()}, FirstRow());
    assert IsHighestRevision({FirstRow(), SharingRow()}, SharingRow());
    assert IndexRow(FirstRow()) == LatestPublication(1, 10, 2, 40, 30);
    assert IndexRow(SharingRow()) == LatestPublication(3, 11, 2, 42, 30);
  }

  lemma SharingVerificationIndexed()
    ensures VerificationIndexCurrent(SharingBroker())
  {
    var db := SharingBroker();
    SharingKeys();
    SharingIndexes();
    SharingRefers();
    SharingOwners();
    Verifying.PopulatedIsLast(db);
    SharingLast(db.verifications);
  }

  lemma SharingLast(verifications: set<Verification>)
    requires verifications == {Success(30, Some(1))}
    ensures Verifying.LastEntries(verifications) == {LatestVerification(1, 30, 2, 20, 51)}
  {
    assert Verifying.IsLast(verifications, Success(30, Some(1)));
    assert Verifying.Entry(Success(30, Some(1))) == LatestVerification(1, 30, 2, 20, 51);
  }

  // One row with one empty field is read back as no row.
  lemma EmptyLastField()
    ensures Dsv.ReadRows(Dsv.FormatRows([[""]], ','), ',') != [[""]]
  {
    DsvRoundTrip.RoundTrip([[""]], ',');
  }

  // A left padding of three in a node of width one.
  lemma LopsidedPadding()
    ensures var r := Tiling.Rect(0.0, 0.0, 1.0, 1.0);
            !Tiling.Within(TreemapLayout.Pad(r, Some(TreemapLayout.Padding(0.0, 0.0, 0.0, 3.0))), r)
  {
  }

  // Diced children of a square stand side by side across it, as sliced ones do.
  lemma DicedSquare(rows: seq<TreemapLayout.Row>, cells: seq<Tiling.Rect>, areas: seq<real>, round: real -> real)
    requires TreemapLayout.RowsChosen(rows, cells, areas, Tiling.Rect(0.0, 0.0, 1.0, 1.0), TreemapLayout.Dice, 0,
                                      1.0, round)
    requires cells != []
    ensures Treemap.InLine(cells, Tiling.Rect(0.0, 0.0, 1.0, 1.0), true)
  {
    TreemapLayout.OneRow(rows, cells, areas, Tiling.Rect(0.0, 0.0, 1.0, 1.0), TreemapLayout.Dice, 0, 1.0, round);
  }

  // Two entries announced as one: the second is on no page.
  lemma ShortTotal()
    ensures Pagination.Fragments([1, 2], 1, 1, Pagination.TotalPages(1, 1)) != [1, 2]
  {
    Pagination.FragmentsAreData([1, 2], 1, 1);
  }
}
