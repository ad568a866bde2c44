// The newest revision of each pact, and the newest consumer version with a pact:
// first as grouped views over every publication, later as views over the table
// latest_pact_publication_ids_for_consumer_versions.
module LatestPublications {
  import opened Basics
  import opened Sql
  import opened Schema

  // A row of all_pact_publications.
  datatype PublicationRow = PublicationRow(
    id: Id, consumerId: Id, consumerName: string, consumerVersionId: Id, consumerVersionNumber: string,
    consumerVersionOrder: Num, providerId: Id, providerName: string, revision: int,
    pactVersionId: Id, pactVersionSha: string, createdAt: int)

  ghost function Denormalise(
    p: Publication, cv: Version, c: Pacticipant, pr: Pacticipant, pv: PactVersion): PublicationRow
  {
    PublicationRow(p.id, c.id, c.name, cv.id, cv.number, cv.order, pr.id, pr.name, p.revision, pv.id, pv.sha,
      p.createdAt)
  }

  ghost function AllPublications(db: Database): set<PublicationRow> {
    set p, cv, c, pr, pv |
      && p in db.publications && cv in db.versions && c in db.pacticipants
      && pr in db.pacticipants && pv in db.pactVersions
      && cv.id == p.consumerVersionId && c.id == cv.pacticipantId
      && pr.id == p.providerId && pv.id == p.pactVersionId
      :: Denormalise(p, cv, c, pr, pv)
  }

  // The rows of the tables that all_pact_publications joins.
  datatype PublicationJoin = PublicationJoin(p: Publication, cv: Version, c: Pacticipant, pr: Pacticipant,
                                             pv: PactVersion)

  ghost predicate Joined(db: Database, j: PublicationJoin) {
    && j.p in db.publications && j.cv in db.versions && j.c in db.pacticipants
    && j.pr in db.pacticipants && j.pv in db.pactVersions
    && j.cv.id == j.p.consumerVersionId && j.c.id == j.cv.pacticipantId
    && j.pr.id == j.p.providerId && j.pv.id == j.p.pactVersionId
  }

  ghost function PublicationJoins(db: Database): set<PublicationJoin> {
    set p, cv, c, pr, pv |
      && p in db.publications && cv in db.versions && c in db.pacticipants
      && pr in db.pacticipants && pv in db.pactVersions
      && Joined(db, PublicationJoin(p, cv, c, pr, pv))
      :: PublicationJoin(p, cv, c, pr, pv)
  }

  ghost function RowOf(j: PublicationJoin): PublicationRow { Denormalise(j.p, j.cv, j.c, j.pr, j.pv) }

  lemma RowJoined(db: Database, r: PublicationRow) returns (j: PublicationJoin)
    requires r in AllPublications(db)
    ensures j in PublicationJoins(db) && RowOf(j) == r
  {
    var p, cv, c, pr, pv :|
      && p in db.publications && cv in db.versions && c in db.pacticipants
      && pr in db.pacticipants && pv in db.pactVersions
      && cv.id == p.consumerVersionId && c.id == cv.pacticipantId
      && pr.id == p.providerId && pv.id == p.pactVersionId
      && r == Denormalise(p, cv, c, pr, pv);
    j := PublicationJoin(p, cv, c, pr, pv);
  }

  lemma JoinedUnique(db: Database, i: PublicationJoin, j: PublicationJoin)
    requires PrimaryKeys(db) && Joined(db, i) && Joined(db, j) && i.p.id == j.p.id
    ensures i == j
  {
  }

  datatype ConsumerProvider = ConsumerProvider(consumerId: Id, providerId: Id)
  datatype RevisionKey = RevisionKey(providerId: Id, consumerId: Id, consumerVersionOrder: Num)

  ghost function RevisionsOfRows(rows: set<PublicationRow>): set<(RevisionKey, Num)> {
    set r | r in rows :: (RevisionKey(r.providerId, r.consumerId, r.consumerVersionOrder), Some(r.revision))
  }

  // latest_pact_publication_revision_numbers
  ghost function LatestRevisionNumbers(rows: set<PublicationRow>): map<RevisionKey, Num> {
    GroupMax(RevisionsOfRows(rows))
  }

  // The join with latest_pact_publication_revision_numbers that the slow views share.
  ghost predicate IsLatestRevision(rows: set<PublicationRow>, r: PublicationRow) {
    && r.consumerVersionOrder.Some?
    && HasRow(LatestRevisionNumbers(rows),
              RevisionKey(r.providerId, r.consumerId, r.consumerVersionOrder), Some(r.revision))
  }

  // latest_pact_publications_by_consumer_versions, three definitions.
  ghost function ByConsumerVersionsV1(rows: set<PublicationRow>): set<PublicationRow> {
    set r | r in rows && IsLatestRevision(rows, r)
  }

  ghost function ByConsumerVersionsV2(lpp: set<LatestPublication>, rows: set<PublicationRow>): set<PublicationRow> {
    set l, r | l in lpp && r in rows && l.consumerVersionId == r.consumerVersionId
      && l.publicationId == r.id && l.providerId == r.providerId :: r
  }

  ghost function ByConsumerVersionsV3(lpp: set<LatestPublication>, rows: set<PublicationRow>): set<PublicationRow> {
    set l, r | l in lpp && r in rows && l.publicationId == r.id :: r
  }

  ghost function OrdersOfRows(rows: set<PublicationRow>): set<(ConsumerProvider, Num)> {
    set r | r in rows :: (ConsumerProvider(r.consumerId, r.providerId), r.consumerVersionOrder)
  }

  ghost function OrdersOfIndex(lpp: set<LatestPublication>, versions: set<Version>): set<(ConsumerProvider, Num)> {
    set l, cv | l in lpp && cv in versions && l.consumerVersionId == cv.id
      :: (ConsumerProvider(l.consumerId, l.providerId), cv.order)
  }

  // latest_pact_consumer_version_orders, two definitions.
  ghost function LatestOrdersV1(rows: set<PublicationRow>): map<ConsumerProvider, Num> {
    GroupMax(OrdersOfRows(rows))
  }

  ghost function LatestOrdersV2(lpp: set<LatestPublication>, versions: set<Version>): map<ConsumerProvider, Num> {
    GroupMax(OrdersOfIndex(lpp, versions))
  }

  // latest_pact_publications
  ghost function LatestPublicationRows(
    byVersion: set<PublicationRow>, orders: map<ConsumerProvider, Num>): set<PublicationRow>
  {
    set r | r in byVersion && r.consumerVersionOrder.Some?
      && HasRow(orders, ConsumerProvider(r.consumerId, r.providerId), r.consumerVersionOrder)
  }

  ghost function IndexRow(r: PublicationRow): LatestPublication {
    LatestPublication(r.consumerId, r.consumerVersionId, r.providerId, r.id, r.pactVersionId)
  }

  // The rows that 20180721 inserts into the index table.
  ghost function PopulatedIndex(rows: set<PublicationRow>): set<LatestPublication> {
    set r | r in ByConsumerVersionsV1(rows) :: IndexRow(r)
  }

  // What the index table stands for: the highest revision per (provider, consumer version).
  ghost predicate IsHighestRevision(rows: set<PublicationRow>, r: PublicationRow) {
    forall s | s in rows && s.consumerVersionId == r.consumerVersionId && s.providerId == r.providerId
      :: s.revision <= r.revision
  }

  ghost function HighestRevisions(rows: set<PublicationRow>): set<LatestPublication> {
    set r | r in rows && IsHighestRevision(rows, r) :: IndexRow(r)
  }

  ghost predicate IndexCurrent(db: Database) {
    db.lpp == HighestRevisions(AllPublications(db))
  }

  // What the declared keys say about the rows of all_pact_publications.
  ghost predicate Keyed(rows: set<PublicationRow>) {
    && (forall r, s | r in rows && s in rows && r.id == s.id :: r == s)
    && (forall r, s | r in rows && s in rows && r.consumerVersionId == s.consumerVersionId
          :: r.consumerId == s.consumerId && r.consumerVersionOrder == s.consumerVersionOrder)
    && (forall r, s | r in rows && s in rows && r.consumerId == s.consumerId
          && r.consumerVersionOrder == s.consumerVersionOrder && r.consumerVersionOrder.Some?
          :: r.consumerVersionId == s.consumerVersionId)
    && (forall r, s | r in rows && s in rows && r.consumerVersionId == s.consumerVersionId
          && r.providerId == s.providerId && r.revision == s.revision :: r == s)
  }

  // all_pact_publications has one row per publication, carrying its own columns.
  ghost predicate Describes(db: Database, r: PublicationRow, p: Publication) {
    && p in db.publications && p.id == r.id && p.consumerVersionId == r.consumerVersionId
    && p.providerId == r.providerId && p.revision == r.revision && p.pactVersionId == r.pactVersionId
    && exists v :: v in db.versions && v.id == r.consumerVersionId
         && v.pacticipantId == r.consumerId && v.order == r.consumerVersionOrder
  }

  lemma RowDescribes(db: Database, r: PublicationRow) returns (p: Publication, v: Version)
    requires r in AllPublications(db)
    ensures Describes(db, r, p)
    ensures v in db.versions && v.id == r.consumerVersionId
    ensures v.pacticipantId == r.consumerId && v.order == r.consumerVersionOrder
  {
    var p', cv, c, pr, pv :|
      && p' in db.publications && cv in db.versions && c in db.pacticipants
      && pr in db.pacticipants && pv in db.pactVersions
      && cv.id == p'.consumerVersionId && c.id == cv.pacticipantId
      && pr.id == p'.providerId && pv.id == p'.pactVersionId
      && r == Denormalise(p', cv, c, pr, pv);
    p, v := p', cv;
  }

  lemma PublicationHasRow(db: Database, p: Publication) returns (r: PublicationRow)
    requires PublicationsRefer(db) && p in db.publications
    ensures r in AllPublications(db) && Describes(db, r, p)
  {
    assert PublicationRefers(db, p);
    var cv :| cv in db.versions && cv.id == p.consumerVersionId;
    assert VersionRefers(db, cv);
    var c :| c in db.pacticipants && c.id == cv.pacticipantId;
    var pr :| pr in db.pacticipants && pr.id == p.providerId;
    var pv :| pv in db.pactVersions && pv.id == p.pactVersionId;
    r := Denormalise(p, cv, c, pr, pv);
  }

  // The publication and consumer version behind a row of the index table.
  lemma IndexRowSource(db: Database, l: LatestPublication) returns (r: PublicationRow, p: Publication, cv: Version)
    requires IndexCurrent(db) && l in db.lpp
    ensures r in AllPublications(db) && IsHighestRevision(AllPublications(db), r) && l == IndexRow(r)
    ensures p in db.publications && p.id == l.publicationId && p.consumerVersionId == l.consumerVersionId
    ensures p.providerId == l.providerId && p.pactVersionId == l.pactVersionId
    ensures cv in db.versions && cv.id == l.consumerVersionId && cv.pacticipantId == l.consumerId
    ensures cv.order == r.consumerVersionOrder
  {
    r :| r in AllPublications(db) && IsHighestRevision(AllPublications(db), r) && l == IndexRow(r);
    p, cv := RowDescribes(db, r);
  }

  lemma AllPublicationsKeyed(db: Database)
    requires PrimaryKeys(db) && UniqueIndexes(db)
    ensures Keyed(AllPublications(db))
  {
    forall r, s | r in AllPublications(db) && s in AllPublications(db)
      ensures r.id == s.id ==> r == s
      ensures r.consumerVersionId == s.consumerVersionId
        ==> r.consumerId == s.consumerId && r.consumerVersionOrder == s.consumerVersionOrder
      ensures r.consumerId == s.consumerId && r.consumerVersionOrder == s.consumerVersionOrder
        && r.consumerVersionOrder.Some?
        ==> r.consumerVersionId == s.consumerVersionId
      ensures r.consumerVersionId == s.consumerVersionId && r.providerId == s.providerId && r.revision == s.revision
        ==> r == s
    {
      RowsAgree(db, r, s);
    }
  }

  lemma RowsAgree(db: Database, r: PublicationRow, s: PublicationRow)
    requires PrimaryKeys(db) && UniqueIndexes(db)
    requires r in AllPublications(db) && s in AllPublications(db)
    ensures r.id == s.id ==> r == s
    ensures r.consumerVersionId == s.consumerVersionId
      ==> r.consumerId == s.consumerId && r.consumerVersionOrder == s.consumerVersionOrder
    ensures r.consumerId == s.consumerId && r.consumerVersionOrder == s.consumerVersionOrder
      && r.consumerVersionOrder.Some?
      ==> r.consumerVersionId == s.consumerVersionId
    ensures r.consumerVersionId == s.consumerVersionId && r.providerId == s.providerId && r.revision == s.revision
      ==> r == s
  {
    var p1, v1 := RowDescribes(db, r);
    var p2, v2 := RowDescribes(db, s);
  }

  lemma RowsOrdered(db: Database)
    requires PrimaryKeys(db) && OrdersKnown(db)
    ensures forall r | r in AllPublications(db) :: r.consumerVersionOrder.Some?
  {
    forall r | r in AllPublications(db) ensures r.consumerVersionOrder.Some? {
      var p, v := RowDescribes(db, r);
    }
  }

  // The slow view keeps a row exactly when it has an order and no revision of the
  // same pact is higher.
  lemma LatestRevisionIsHighest(rows: set<PublicationRow>, r: PublicationRow)
    requires Keyed(rows) && r in rows
    ensures IsLatestRevision(rows, r) <==> r.consumerVersionOrder.Some? && IsHighestRevision(rows, r)
  {
    var base := RevisionsOfRows(rows);
    var key := RevisionKey(r.providerId, r.consumerId, r.consumerVersionOrder);
    GroupMaxIs(base, key, Some(r.revision));
    assert (key, Some(r.revision)) in base;
    if r.consumerVersionOrder.Some? {
      if IsLatestRevision(rows, r) {
        forall s | s in rows && s.consumerVersionId == r.consumerVersionId && s.providerId == r.providerId
          ensures s.revision <= r.revision
        {
          assert (key, Some(s.revision)) in base;
        }
      }
      if IsHighestRevision(rows, r) { HighestBoundsGroup(rows, r); }
    }
  }

  lemma HighestBoundsGroup(rows: set<PublicationRow>, r: PublicationRow)
    requires Keyed(rows) && r in rows && r.consumerVersionOrder.Some? && IsHighestRevision(rows, r)
    ensures forall q | q in RevisionsOfRows(rows)
      && q.0 == RevisionKey(r.providerId, r.consumerId, r.consumerVersionOrder)
              :: NotAbove(q.1, Some(r.revision))
  {
    forall q | q in RevisionsOfRows(rows) && q.0 == RevisionKey(r.providerId, r.consumerId, r.consumerVersionOrder)
      ensures NotAbove(q.1, Some(r.revision))
    {
      var s :| s in rows && q == (RevisionKey(s.providerId, s.consumerId, s.consumerVersionOrder), Some(s.revision));
      assert s.consumerVersionId == r.consumerVersionId;
    }
  }

  // Each pact has a highest revision.
  lemma {:induction false} HighestRevisionExists(rows: set<PublicationRow>, r: PublicationRow)
    returns (top: PublicationRow)
    requires r in rows
    ensures top in rows && top.consumerVersionId == r.consumerVersionId && top.providerId == r.providerId
    ensures IsHighestRevision(rows, top)
  {
    var pact := set s | s in rows && s.consumerVersionId == r.consumerVersionId && s.providerId == r.providerId;
    assert r in pact;
    top := GreatestExists(pact, (s: PublicationRow) => s.revision);
    assert forall s | s in rows && s.consumerVersionId == top.consumerVersionId
      && s.providerId == top.providerId :: s in pact;
  }

  // 20180721 fills the table with the highest revisions, provided every published
  // version has an order; a pact of an unordered version would be left out.
  lemma PopulatedIndexIsHighest(rows: set<PublicationRow>)
    requires Keyed(rows)
    ensures PopulatedIndex(rows) == HighestRevisions(rows)
       <==> forall r | r in rows :: r.consumerVersionOrder.Some?
  {
    forall r | r in rows
      ensures IsLatestRevision(rows, r) <==> r.consumerVersionOrder.Some? && IsHighestRevision(rows, r)
    {
      LatestRevisionIsHighest(rows, r);
    }
    if r :| r in rows && r.consumerVersionOrder.None? {
      var top := HighestRevisionExists(rows, r);
      assert IndexRow(top) in HighestRevisions(rows);
      assert forall s | s in rows && IndexRow(s) == IndexRow(top) :: s == top;
      assert IndexRow(top) !in PopulatedIndex(rows);
    }
  }

  // While the index table is current the second and the third definition of
  // latest_pact_publications_by_consumer_versions agree, and the first agrees with them
  // exactly when every published version has an order.
  lemma ByConsumerVersionsExactly(db: Database)
    requires PrimaryKeys(db) && UniqueIndexes(db) && IndexCurrent(db)
    ensures ByConsumerVersionsV2(db.lpp, AllPublications(db)) == ByConsumerVersionsV3(db.lpp, AllPublications(db))
    ensures ByConsumerVersionsV1(AllPublications(db)) == ByConsumerVersionsV3(db.lpp, AllPublications(db))
       <==> forall r | r in AllPublications(db) :: r.consumerVersionOrder.Some?
  {
    IndexedDefinitionsAgree(db);
    SlowDefinitionAgrees(db);
  }

  lemma IndexedDefinitionsAgree(db: Database)
    requires PrimaryKeys(db) && UniqueIndexes(db) && IndexCurrent(db)
    ensures ByConsumerVersionsV2(db.lpp, AllPublications(db)) == ByConsumerVersionsV3(db.lpp, AllPublications(db))
  {
    AllPublicationsKeyed(db);
    forall r | r in AllPublications(db)
      ensures r in ByConsumerVersionsV2(db.lpp, AllPublications(db))
         <==> r in ByConsumerVersionsV3(db.lpp, AllPublications(db))
    {
      InByConsumerVersions(db, r);
    }
  }

  lemma SlowDefinitionAgrees(db: Database)
    requires PrimaryKeys(db) && UniqueIndexes(db) && IndexCurrent(db)
    ensures ByConsumerVersionsV1(AllPublications(db)) == ByConsumerVersionsV3(db.lpp, AllPublications(db))
       <==> forall r | r in AllPublications(db) :: r.consumerVersionOrder.Some?
  {
    var rows := AllPublications(db);
    AllPublicationsKeyed(db);
    if forall r | r in rows :: r.consumerVersionOrder.Some? {
      forall r | r in rows ensures r in ByConsumerVersionsV1(rows) <==> r in ByConsumerVersionsV3(db.lpp, rows) {
        InByConsumerVersions(db, r);
      }
    } else {
      var r :| r in rows && r.consumerVersionOrder.None?;
      var top := HighestRevisionExists(rows, r);
      InByConsumerVersions(db, top);
    }
  }

  lemma InByConsumerVersions(db: Database, r: PublicationRow)
    requires Keyed(AllPublications(db)) && IndexCurrent(db) && r in AllPublications(db)
    ensures var rows := AllPublications(db);
            && (r in ByConsumerVersionsV1(rows) <==> r.consumerVersionOrder.Some? && IsHighestRevision(rows, r))
            && (r in ByConsumerVersionsV2(db.lpp, rows) <==> IsHighestRevision(rows, r))
            && (r in ByConsumerVersionsV3(db.lpp, rows) <==> IsHighestRevision(rows, r))
  {
    var rows := AllPublications(db);
    LatestRevisionIsHighest(rows, r);
    assert IsHighestRevision(rows, r) ==> IndexRow(r) in db.lpp;
    forall l | l in db.lpp && l.publicationId == r.id ensures IsHighestRevision(rows, r) {
      var s :| s in rows && IsHighestRevision(rows, s) && l == IndexRow(s);
    }
  }

  // So all three agree over what the views assume.
  lemma ByConsumerVersionsAgree(db: Database)
    requires PrimaryKeys(db) && UniqueIndexes(db) && OrdersKnown(db) && IndexCurrent(db)
    ensures ByConsumerVersionsV1(AllPublications(db)) == ByConsumerVersionsV2(db.lpp, AllPublications(db))
    ensures ByConsumerVersionsV2(db.lpp, AllPublications(db)) == ByConsumerVersionsV3(db.lpp, AllPublications(db))
  {
    RowsOrdered(db);
    ByConsumerVersionsExactly(db);
  }

  // Both definitions of latest_pact_consumer_version_orders give the same map.
  lemma LatestOrdersAgree(db: Database)
    requires PrimaryKeys(db) && UniqueIndexes(db) && IndexCurrent(db)
    ensures LatestOrdersV1(AllPublications(db)) == LatestOrdersV2(db.lpp, db.versions)
  {
    var rows := AllPublications(db);
    forall p | p in OrdersOfRows(rows) ensures Matched(p, OrdersOfIndex(db.lpp, db.versions)) {
      var r :| r in rows && p == (ConsumerProvider(r.consumerId, r.providerId), r.consumerVersionOrder);
      IndexOrderOf(db, r);
    }
    forall q | q in OrdersOfIndex(db.lpp, db.versions) ensures Matched(q, OrdersOfRows(rows)) {
      var l, cv :| l in db.lpp && cv in db.versions && l.consumerVersionId == cv.id
        && q == (ConsumerProvider(l.consumerId, l.providerId), cv.order);
      RowOrderOf(db, l, cv);
    }
    SameGroupMax(OrdersOfRows(rows), OrdersOfIndex(db.lpp, db.versions));
  }

  lemma IndexOrderOf(db: Database, r: PublicationRow)
    requires PrimaryKeys(db) && UniqueIndexes(db) && IndexCurrent(db) && r in AllPublications(db)
    ensures (ConsumerProvider(r.consumerId, r.providerId), r.consumerVersionOrder) in OrdersOfIndex(db.lpp, db.versions)
  {
    AllPublicationsKeyed(db);
    var top := HighestRevisionExists(AllPublications(db), r);
    var _, v := RowDescribes(db, top);
    assert IndexRow(top) in db.lpp;
  }

  lemma RowOrderOf(db: Database, l: LatestPublication, cv: Version)
    requires PrimaryKeys(db) && IndexCurrent(db)
    requires l in db.lpp && cv in db.versions && l.consumerVersionId == cv.id
    ensures (ConsumerProvider(l.consumerId, l.providerId), cv.order) in OrdersOfRows(AllPublications(db))
  {
    var r :| r in AllPublications(db) && l == IndexRow(r);
    var _, v := RowDescribes(db, r);
  }
}
