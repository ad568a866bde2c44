// The tables behind publishing: how pact_publications and the index of latest
// publications change together, and why the index stays right.
module Publishing {
  import opened Basics
  import opened Sql
  import opened Schema
  import opened LatestPublications
  import OrderVersions

  // The part of the database that publishing and deleting touch, with the next
  // ids of the two tables that publishing inserts into.
  datatype PactStore = PactStore(
    pacticipants: set<Pacticipant>, versions: set<Version>, pactVersions: set<PactVersion>,
    publications: set<Publication>,
    lpp: set<LatestPublication>, nextPactVersionId: Id, nextPublicationId: Id)

  predicate SamePact(p: Publication, q: Publication) {
    p.consumerVersionId == q.consumerVersionId && p.providerId == q.providerId
  }

  predicate IsTop(publications: set<Publication>, p: Publication) {
    p in publications && forall q | q in publications && SamePact(p, q) :: q.revision <= p.revision
  }

  function IndexEntry(p: Publication): LatestPublication {
    LatestPublication(p.consumerId, p.consumerVersionId, p.providerId, p.id, p.pactVersionId)
  }

  // The row is the one for p's pact.
  predicate OfPact(l: LatestPublication, p: Publication) {
    l.consumerVersionId == p.consumerVersionId && l.providerId == p.providerId
  }

  // What the index should hold: the highest revision of each pact.
  ghost function TopEntries(publications: set<Publication>): set<LatestPublication> {
    set p | p in publications && IsTop(publications, p) :: IndexEntry(p)
  }

  ghost predicate PublicationKeys(publications: set<Publication>) {
    && (forall p, q | p in publications && q in publications && p.id == q.id :: p == q)
    && (forall p, q | p in publications && q in publications && SamePact(p, q) && p.revision == q.revision :: p == q)
  }

  ghost predicate Registered(pacticipants: set<Pacticipant>, id: Id) {
    exists c :: c in pacticipants && c.id == id
  }

  // A publication's references, and the columns it copies.
  ghost predicate Placed(s: PactStore, p: Publication) {
    && (exists v :: v in s.versions && v.id == p.consumerVersionId && v.pacticipantId == p.consumerId)
    && Registered(s.pacticipants, p.providerId)
    && (exists pv :: pv in s.pactVersions && pv.id == p.pactVersionId
          && pv.consumerId == p.consumerId && pv.providerId == p.providerId)
  }

  ghost predicate PactVersionKeys(pactVersions: set<PactVersion>) {
    forall a, b | a in pactVersions && b in pactVersions ::
      (a.id == b.id ==> a == b)
      && (a.consumerId == b.consumerId && a.providerId == b.providerId && a.sha == b.sha ==> a == b)
  }

  ghost predicate PacticipantKeys(pacticipants: set<Pacticipant>) {
    forall a, b | a in pacticipants && b in pacticipants && a.id == b.id :: a == b
  }

  ghost predicate Consistent(s: PactStore) {
    && PublicationKeys(s.publications)
    && PactVersionKeys(s.pactVersions)
    && PacticipantKeys(s.pacticipants)
    && OrderVersions.VersionKeys(s.versions)
    && (forall v | v in s.versions :: Registered(s.pacticipants, v.pacticipantId))
    && (forall p {:trigger Placed(s, p)} | p in s.publications :: Placed(s, p))
    && (forall p | p in s.publications :: p.id < s.nextPublicationId)
    && (forall pv | pv in s.pactVersions :: pv.id < s.nextPactVersionId)
    && s.lpp == TopEntries(s.publications)
  }

  // The database's tables are the store's.
  ghost predicate Shows(db: Database, s: PactStore) {
    && db.pacticipants == s.pacticipants && db.versions == s.versions && db.pactVersions == s.pactVersions
    && db.publications == s.publications && db.lpp == s.lpp
  }

  // A consistent store makes the views' hypotheses true.
  lemma ConsistentStoreIsCurrent(db: Database, s: PactStore)
    requires Consistent(s) && Shows(db, s)
    ensures PublicationsRefer(db) && IndexCurrent(db) && PactVersionsOwned(db)
  {
    forall p | p in db.publications ensures PublicationOwned(db, p) && PublicationRefers(db, p) {
      assert Placed(s, p);
    }
    forall v | v in db.versions ensures VersionRefers(db, v) {
      assert Registered(s.pacticipants, v.pacticipantId);
    }
    TopsAreHighest(db, s);
  }

  lemma TopsAreHighest(db: Database, s: PactStore)
    requires Mirrors(db, s)
    ensures TopEntries(s.publications) == HighestRevisions(AllPublications(db))
  {
    forall l ensures l in TopEntries(s.publications) <==> l in HighestRevisions(AllPublications(db)) {
      if l in TopEntries(s.publications) {
        var p :| p in s.publications && IsTop(s.publications, p) && l == IndexEntry(p);
        TopIsHighest(db, s, p);
      }
      if l in HighestRevisions(AllPublications(db)) {
        var r :| r in AllPublications(db) && IsHighestRevision(AllPublications(db), r) && l == IndexRow(r);
        HighestIsTop(db, s, r);
      }
    }
  }

  // 20180721 leaves a consistent store, when every published version has an order
  // and the next ids are new.
  lemma PopulatedStoreConsistent(db: Database, s: PactStore)
    requires PrimaryKeys(db) && UniqueIndexes(db) && OrdersKnown(db)
    requires Mirrors(db, s) && db.pacticipants == s.pacticipants && PactVersionKeys(s.pactVersions)
    requires forall p | p in s.publications :: p.id < s.nextPublicationId
    requires forall pv | pv in s.pactVersions :: pv.id < s.nextPactVersionId
    requires s.lpp == PopulatedIndex(AllPublications(db))
    ensures Consistent(s)
  {
    AllPublicationsKeyed(db);
    RowsOrdered(db);
    PopulatedIndexIsHighest(AllPublications(db));
    TopsAreHighest(db, s);
    forall v | v in s.versions ensures Registered(s.pacticipants, v.pacticipantId) {
      assert VersionRefers(db, v);
    }
  }

  // The store's publications sit among the rows the views read.
  ghost predicate Mirrors(db: Database, s: PactStore) {
    && PublicationsRefer(db)
    && db.versions == s.versions && db.pactVersions == s.pactVersions && db.publications == s.publications
    && OrderVersions.VersionKeys(s.versions)
    && (forall p, q | p in s.publications && q in s.publications && p.id == q.id :: p == q)
    && (forall p {:trigger Placed(s, p)} | p in s.publications :: Placed(s, p))
  }

  lemma TopIsHighest(db: Database, s: PactStore, p: Publication)
    requires Mirrors(db, s)
    requires IsTop(s.publications, p)
    ensures IndexEntry(p) in HighestRevisions(AllPublications(db))
  {
    var rows := AllPublications(db);
    var r := PublicationHasRow(db, p);
    assert Placed(s, p);
    forall t | t in rows && t.consumerVersionId == r.consumerVersionId && t.providerId == r.providerId
      ensures t.revision <= r.revision
    {
      var q, v := RowDescribes(db, t);
    }
    assert IndexRow(r) == IndexEntry(p);
  }

  lemma HighestIsTop(db: Database, s: PactStore, r: PublicationRow)
    requires Mirrors(db, s)
    requires r in AllPublications(db) && IsHighestRevision(AllPublications(db), r)
    ensures IndexRow(r) in TopEntries(s.publications)
  {
    var p, v := RowDescribes(db, r);
    assert Placed(s, p);
    forall q | q in s.publications && SamePact(p, q) ensures q.revision <= p.revision {
      var t := PublicationHasRow(db, q);
    }
    assert IsTop(s.publications, p) && IndexEntry(p) == IndexRow(r);
  }

  // ---- publishing ----

  predicate HasSha(pv: PactVersion, consumerId: Id, providerId: Id, sha: string) {
    pv.consumerId == consumerId && pv.providerId == providerId && pv.sha == sha
  }

  // The id that find_or_create_pact_version returns, and the table it leaves.
  ghost function PactVersionId(s: PactStore, consumerId: Id, providerId: Id, sha: string): Id {
    if exists pv :: pv in s.pactVersions && HasSha(pv, consumerId, providerId, sha)
    then var pv :| pv in s.pactVersions && HasSha(pv, consumerId, providerId, sha); pv.id
    else s.nextPactVersionId
  }

  ghost function WithPactVersion(s: PactStore, consumerId: Id, providerId: Id, sha: string): PactStore {
    if exists pv :: pv in s.pactVersions && HasSha(pv, consumerId, providerId, sha) then s
    else s.(pactVersions := s.pactVersions + {PactVersion(s.nextPactVersionId, consumerId, providerId, sha)},
            nextPactVersionId := s.nextPactVersionId + 1)
  }

  // The pact the service finds through latest_pact_publications_by_consumer_versions.
  predicate IsPublished(lpp: set<LatestPublication>, publications: set<Publication>, versionId: Id, providerId: Id,
                        p: Publication)
  {
    && p in publications && p.consumerVersionId == versionId && p.providerId == providerId
    && exists l :: l in lpp && l.publicationId == p.id
  }

  // Adding a revision above all others of its pact, and replacing the pact's row in
  // the index.
  ghost function WithRevision(s: PactStore, p: Publication): PactStore {
    s.(publications := s.publications + {p},
       lpp := (set l | l in s.lpp && !OfPact(l, p)) + {IndexEntry(p)},
       nextPublicationId := s.nextPublicationId + 1)
  }

  datatype PactKey = PactKey(versionId: Id, providerId: Id)

  ghost function FoundPact(s: PactStore, versionId: Id, providerId: Id): Option<Publication> {
    if exists p :: IsPublished(s.lpp, s.publications, versionId, providerId, p)
    then var p :| IsPublished(s.lpp, s.publications, versionId, providerId, p); Some(p)
    else None
  }

  ghost function NewRevision(s: PactStore, v: Version, providerId: Id, sha: string, revision: int,
                             now: int): Publication
  {
    Publication(s.nextPublicationId, v.pacticipantId, v.id, providerId, revision,
                PactVersionId(s, v.pacticipantId, providerId, sha), now)
  }

  // create_or_update_pact. The first revision is 1; content that differs from the
  // latest revision becomes the next revision; equal content changes nothing.
  ghost function Published(s: PactStore, v: Version, providerId: Id, sha: string, now: int): PactStore {
    var s1 := WithPactVersion(s, v.pacticipantId, providerId, sha);
    match FoundPact(s, v.id, providerId)
    case Some(latest) =>
      if latest.pactVersionId == PactVersionId(s, v.pacticipantId, providerId, sha) then s1
      else WithRevision(s1, NewRevision(s, v, providerId, sha, latest.revision + 1, now))
    case None => WithRevision(s1, NewRevision(s, v, providerId, sha, 1, now))
  }

  lemma TopExists(publications: set<Publication>, p: Publication) returns (top: Publication)
    requires p in publications
    ensures IsTop(publications, top) && SamePact(top, p)
  {
    var pact := set q | q in publications && SamePact(p, q);
    assert p in pact;
    top := GreatestExists(pact, (q: Publication) => q.revision);
    assert forall q | q in publications && SamePact(top, q) :: q in pact;
  }

  // The service finds the highest revision, and finds one whenever there is one.
  lemma FoundIsTop(s: PactStore, versionId: Id, providerId: Id, p: Publication)
    requires Consistent(s)
    ensures IsPublished(s.lpp, s.publications, versionId, providerId, p)
       <==> IsTop(s.publications, p) && p.consumerVersionId == versionId && p.providerId == providerId
  {
    if IsPublished(s.lpp, s.publications, versionId, providerId, p) {
      var l :| l in s.lpp && l.publicationId == p.id;
      var q :| q in s.publications && IsTop(s.publications, q) && l == IndexEntry(q);
      assert p == q;
    }
    if IsTop(s.publications, p) { assert IndexEntry(p) in s.lpp; }
  }

  ghost predicate HoldsVersion(pactVersions: set<PactVersion>, id: Id, consumerId: Id, providerId: Id, sha: string) {
    exists pv :: pv in pactVersions && pv.id == id && HasSha(pv, consumerId, providerId, sha)
  }

  lemma WithPactVersionConsistent(s: PactStore, consumerId: Id, providerId: Id, sha: string)
    requires Consistent(s)
    ensures Consistent(WithPactVersion(s, consumerId, providerId, sha))
    ensures HoldsVersion(WithPactVersion(s, consumerId, providerId, sha).pactVersions,
                         PactVersionId(s, consumerId, providerId, sha), consumerId, providerId, sha)
  {
    var t := WithPactVersion(s, consumerId, providerId, sha);
    forall p | p in t.publications ensures Placed(t, p) { assert Placed(s, p); }
    if s == t {
      var pv :| pv in s.pactVersions && HasSha(pv, consumerId, providerId, sha);
      assert pv.id == PactVersionId(s, consumerId, providerId, sha);
    } else {
      assert PactVersion(s.nextPactVersionId, consumerId, providerId, sha) in t.pactVersions;
    }
  }

  lemma WithRevisionConsistent(s: PactStore, p: Publication)
    requires Consistent(s) && Placed(s, p) && p.id == s.nextPublicationId
    requires forall q | q in s.publications && SamePact(p, q) :: q.revision < p.revision
    ensures Consistent(WithRevision(s, p))
    ensures IsTop(WithRevision(s, p).publications, p)
  {
    var t := WithRevision(s, p);
    forall q | q in t.publications ensures Placed(t, q) { assert Placed(s, q); }
    RevisionKeyed(s.publications, p);
    RaisedTop(s.publications, p, p);
    RaisedIndex(s.publications, p);
  }

  lemma RevisionKeyed(publications: set<Publication>, p: Publication)
    requires PublicationKeys(publications) && forall q | q in publications :: q.id < p.id
    requires forall q | q in publications && SamePact(p, q) :: q.revision < p.revision
    ensures PublicationKeys(publications + {p})
  {
    assert forall q | q in publications && SamePact(q, p) :: SamePact(p, q);
  }

  lemma RaisedIndex(publications: set<Publication>, p: Publication)
    requires forall o | o in publications && SamePact(p, o) :: o.revision < p.revision
    ensures (set l | l in TopEntries(publications) && !OfPact(l, p)) + {IndexEntry(p)} == TopEntries(publications + {p})
  {
    forall q ensures IsTop(publications + {p}, q) <==> q == p || (IsTop(publications, q) && !SamePact(q, p)) {
      RaisedTop(publications, p, q);
    }
  }

  lemma RaisedTop(publications: set<Publication>, p: Publication, q: Publication)
    requires forall o | o in publications && SamePact(p, o) :: o.revision < p.revision
    ensures IsTop(publications + {p}, q) <==> q == p || (IsTop(publications, q) && !SamePact(q, p))
  {
    if IsTop(publications + {p}, q) && q != p {
      assert p in publications + {p};
      assert forall o | o in publications :: o in publications + {p};
    }
  }

  lemma FoundPactIs(s: PactStore, versionId: Id, providerId: Id, p: Publication)
    requires Consistent(s)
    ensures FoundPact(s, versionId, providerId) == Some(p)
       <==> IsTop(s.publications, p) && p.consumerVersionId == versionId && p.providerId == providerId
  {
    FoundIsTop(s, versionId, providerId, p);
    if IsTop(s.publications, p) && p.consumerVersionId == versionId && p.providerId == providerId {
      var q := FoundPact(s, versionId, providerId).value;
      FoundIsTop(s, versionId, providerId, q);
      assert SamePact(p, q) && SamePact(q, p);
    }
  }

  lemma FoundIsAbove(s: PactStore, versionId: Id, providerId: Id, latest: Publication)
    requires Consistent(s) && FoundPact(s, versionId, providerId) == Some(latest)
    ensures forall q | q in s.publications && q.consumerVersionId == versionId && q.providerId == providerId ::
              q.revision < latest.revision + 1
  {
    FoundPactIs(s, versionId, providerId, latest);
    assert forall q | q in s.publications && q.consumerVersionId == versionId && q.providerId == providerId ::
      SamePact(latest, q);
  }

  lemma NothingFound(s: PactStore, versionId: Id, providerId: Id)
    requires Consistent(s) && FoundPact(s, versionId, providerId).None?
    ensures forall q | q in s.publications :: !(q.consumerVersionId == versionId && q.providerId == providerId)
  {
    forall q | q in s.publications ensures !(q.consumerVersionId == versionId && q.providerId == providerId) {
      var top := TopExists(s.publications, q);
      FoundIsTop(s, versionId, providerId, top);
    }
  }

  lemma NewRevisionConsistent(s: PactStore, v: Version, providerId: Id, sha: string, revision: int, now: int)
    requires Consistent(s) && v in s.versions && Registered(s.pacticipants, providerId)
    requires forall q | q in s.publications && q.consumerVersionId == v.id && q.providerId == providerId ::
               q.revision < revision
    ensures var p := NewRevision(s, v, providerId, sha, revision, now);
            var t := WithRevision(WithPactVersion(s, v.pacticipantId, providerId, sha), p);
            Consistent(t) && FoundPact(t, v.id, providerId) == Some(p)
            && HoldsVersion(t.pactVersions, p.pactVersionId, v.pacticipantId, providerId, sha)
  {
    WithPactVersionConsistent(s, v.pacticipantId, providerId, sha);
    var s1 := WithPactVersion(s, v.pacticipantId, providerId, sha);
    var p := NewRevision(s, v, providerId, sha, revision, now);
    assert Placed(s1, p);
    WithRevisionConsistent(s1, p);
    FoundPactIs(WithRevision(s1, p), v.id, providerId, p);
  }

  // What publishing is for: the store stays consistent, and the index leads to a
  // revision of the pact that carries the published content. The revision is 1 for
  // a new pact, stays when the content is unchanged, and otherwise goes up by one.
  ghost predicate Serves(s: PactStore, v: Version, providerId: Id, sha: string, now: int, p: Publication) {
    var t := Published(s, v, providerId, sha, now);
    && Consistent(t) && FoundPact(t, v.id, providerId) == Some(p)
    && HoldsVersion(t.pactVersions, p.pactVersionId, v.pacticipantId, providerId, sha)
    && p.revision == match FoundPact(s, v.id, providerId)
                     case Some(latest) => latest.revision + (if p.pactVersionId == latest.pactVersionId then 0 else 1)
                     case None => 1
  }

  lemma SameContentServed(s: PactStore, v: Version, providerId: Id, sha: string, now: int, latest: Publication)
    requires Consistent(s) && v in s.versions && Registered(s.pacticipants, providerId)
    requires FoundPact(s, v.id, providerId) == Some(latest)
    requires latest.pactVersionId == PactVersionId(s, v.pacticipantId, providerId, sha)
    ensures Serves(s, v, providerId, sha, now, latest)
  {
    WithPactVersionConsistent(s, v.pacticipantId, providerId, sha);
    FoundPactIs(s, v.id, providerId, latest);
    FoundPactIs(WithPactVersion(s, v.pacticipantId, providerId, sha), v.id, providerId, latest);
  }

  lemma NextContentServed(s: PactStore, v: Version, providerId: Id, sha: string, now: int, latest: Publication)
    requires Consistent(s) && v in s.versions && Registered(s.pacticipants, providerId)
    requires FoundPact(s, v.id, providerId) == Some(latest)
    requires latest.pactVersionId != PactVersionId(s, v.pacticipantId, providerId, sha)
    ensures Serves(s, v, providerId, sha, now, NewRevision(s, v, providerId, sha, latest.revision + 1, now))
  {
    FoundIsAbove(s, v.id, providerId, latest);
    NewRevisionConsistent(s, v, providerId, sha, latest.revision + 1, now);
    NextContentIs(s, v, providerId, sha, now, latest);
  }

  lemma NextContentIs(s: PactStore, v: Version, providerId: Id, sha: string, now: int, latest: Publication)
    requires FoundPact(s, v.id, providerId) == Some(latest)
    requires latest.pactVersionId != PactVersionId(s, v.pacticipantId, providerId, sha)
    ensures Published(s, v, providerId, sha, now)
         == WithRevision(WithPactVersion(s, v.pacticipantId, providerId, sha),
                         NewRevision(s, v, providerId, sha, latest.revision + 1, now))
  {
  }

  lemma FirstContentServed(s: PactStore, v: Version, providerId: Id, sha: string, now: int)
    requires Consistent(s) && v in s.versions && Registered(s.pacticipants, providerId)
    requires FoundPact(s, v.id, providerId).None?
    ensures Serves(s, v, providerId, sha, now, NewRevision(s, v, providerId, sha, 1, now))
  {
    NothingFound(s, v.id, providerId);
    NewRevisionConsistent(s, v, providerId, sha, 1, now);
  }

  lemma PublishedServes(s: PactStore, v: Version, providerId: Id, sha: string, now: int) returns (p: Publication)
    requires Consistent(s) && v in s.versions && Registered(s.pacticipants, providerId)
    ensures Serves(s, v, providerId, sha, now, p)
  {
    match FoundPact(s, v.id, providerId) {
      case Some(latest) =>
        if latest.pactVersionId == PactVersionId(s, v.pacticipantId, providerId, sha) {
          SameContentServed(s, v, providerId, sha, now, latest);
          p := latest;
        } else {
          NextContentServed(s, v, providerId, sha, now, latest);
          p := NewRevision(s, v, providerId, sha, latest.revision + 1, now);
        }
      case None =>
        FirstContentServed(s, v, providerId, sha, now);
        p := NewRevision(s, v, providerId, sha, 1, now);
    }
  }

  lemma PublishedStaysConsistent(s: PactStore, v: Version, providerId: Id, sha: string, now: int)
    requires Consistent(s) && v in s.versions && Registered(s.pacticipants, providerId)
    ensures Consistent(Published(s, v, providerId, sha, now))
  {
    var p := PublishedServes(s, v, providerId, sha, now);
  }

  // In the rows themselves: afterwards the highest revision of the pact is in the index
  // and has the published digest. When it had it before, no publication is added; else
  // one is, as revision 1 or as the next after the highest, with the columns of the call.
  lemma PublishedShows(s: PactStore, v: Version, providerId: Id, sha: string, now: int) returns (p: Publication)
    requires Consistent(s) && v in s.versions && Registered(s.pacticipants, providerId)
    ensures var t := Published(s, v, providerId, sha, now);
            && p in t.publications && p.consumerVersionId == v.id && p.providerId == providerId
            && (forall q | q in t.publications && q.consumerVersionId == v.id && q.providerId == providerId ::
                  q.revision <= p.revision)
            && LatestPublication(p.consumerId, v.id, providerId, p.id, p.pactVersionId) in t.lpp
            && (exists pv :: pv in t.pactVersions && pv.id == p.pactVersionId && pv.sha == sha
                             && pv.consumerId == v.pacticipantId && pv.providerId == providerId)
            && t.publications - {p} == s.publications - {p}
    ensures p !in s.publications ==>
              && p.id == s.nextPublicationId && p.consumerId == v.pacticipantId && p.createdAt == now
              && (forall q | q in s.publications && q.consumerVersionId == v.id && q.providerId == providerId ::
                    q.revision < p.revision)
              && (p.revision == 1 || exists q :: q in s.publications && q.consumerVersionId == v.id
                                                 && q.providerId == providerId && q.revision + 1 == p.revision)
    ensures p !in s.publications ==>
              forall q, pv | q in s.publications && q.consumerVersionId == v.id && q.providerId == providerId
                             && q.revision + 1 == p.revision && pv in s.pactVersions && pv.id == q.pactVersionId ::
                pv.sha != sha
    ensures (forall q | q in s.publications :: !(q.consumerVersionId == v.id && q.providerId == providerId)) ==>
              p.revision == 1
  {
    p := PublishedServes(s, v, providerId, sha, now);
    PublishedAddsAtMost(s, v, providerId, sha, now, p);
    ServedShows(s, v, providerId, sha, now, p);
    if p !in s.publications { NewPublicationIs(s, v, providerId, sha, now, p); }
  }

  lemma ServedShows(s: PactStore, v: Version, providerId: Id, sha: string, now: int, p: Publication)
    requires Serves(s, v, providerId, sha, now, p)
    ensures var t := Published(s, v, providerId, sha, now);
            && p.consumerVersionId == v.id && p.providerId == providerId
            && (forall q | q in t.publications && q.consumerVersionId == v.id && q.providerId == providerId ::
                  q.revision <= p.revision)
            && LatestPublication(p.consumerId, v.id, providerId, p.id, p.pactVersionId) in t.lpp
            && (exists pv :: pv in t.pactVersions && pv.id == p.pactVersionId && pv.sha == sha
                             && pv.consumerId == v.pacticipantId && pv.providerId == providerId)
  {
    var t := Published(s, v, providerId, sha, now);
    FoundPactIs(t, v.id, providerId, p);
    TopShows(t.publications, p);
    assert IndexEntry(p) in t.lpp;
    var pv :| pv in t.pactVersions && pv.id == p.pactVersionId && HasSha(pv, v.pacticipantId, providerId, sha);
  }

  lemma TopShows(publications: set<Publication>, p: Publication)
    requires IsTop(publications, p)
    ensures forall q | q in publications && q.consumerVersionId == p.consumerVersionId
                       && q.providerId == p.providerId ::
              q.revision <= p.revision
  {
  }

  lemma NewPublicationIs(s: PactStore, v: Version, providerId: Id, sha: string, now: int, p: Publication)
    requires Consistent(s) && v in s.versions && Serves(s, v, providerId, sha, now, p) && p !in s.publications
    ensures p.id == s.nextPublicationId && p.consumerId == v.pacticipantId && p.createdAt == now
    ensures forall q | q in s.publications && q.consumerVersionId == v.id && q.providerId == providerId ::
              q.revision < p.revision
    ensures p.revision == 1 || exists q :: q in s.publications && q.consumerVersionId == v.id
                                           && q.providerId == providerId && q.revision + 1 == p.revision
    ensures forall q, pv | q in s.publications && q.consumerVersionId == v.id && q.providerId == providerId
                           && q.revision + 1 == p.revision && pv in s.pactVersions && pv.id == q.pactVersionId ::
              pv.sha != sha
    ensures (forall q | q in s.publications :: !(q.consumerVersionId == v.id && q.providerId == providerId)) ==>
              p.revision == 1
  {
    FoundPactIs(Published(s, v, providerId, sha, now), v.id, providerId, p);
    match FoundPact(s, v.id, providerId)
    case Some(latest) =>
      FoundPactIs(s, v.id, providerId, latest);
      FoundIsAbove(s, v.id, providerId, latest);
      assert p == NewRevision(s, v, providerId, sha, latest.revision + 1, now);
      OtherContent(s, v, providerId, sha, latest);
      forall q | q in s.publications && q.consumerVersionId == v.id && q.providerId == providerId
                 && q.revision + 1 == p.revision
        ensures q == latest
      {
        assert SamePact(q, latest);
      }
    case None =>
      NothingFound(s, v.id, providerId);
      assert p == NewRevision(s, v, providerId, sha, 1, now);
  }

  lemma PublishedAddsAtMost(s: PactStore, v: Version, providerId: Id, sha: string, now: int, p: Publication)
    requires Consistent(s) && Serves(s, v, providerId, sha, now, p)
    ensures p in Published(s, v, providerId, sha, now).publications
    ensures Published(s, v, providerId, sha, now).publications - {p} == s.publications - {p}
  {
    FoundPactIs(Published(s, v, providerId, sha, now), v.id, providerId, p);
  }

  // The latest revision has another digest when its pact version is not the one found.
  lemma OtherContent(s: PactStore, v: Version, providerId: Id, sha: string, latest: Publication)
    requires Consistent(s) && latest in s.publications && latest.consumerVersionId == v.id && v in s.versions
    requires latest.providerId == providerId
    requires latest.pactVersionId != PactVersionId(s, v.pacticipantId, providerId, sha)
    ensures forall pv | pv in s.pactVersions && pv.id == latest.pactVersionId :: pv.sha != sha
  {
    assert Placed(s, latest);
    forall pv | pv in s.pactVersions && pv.id == latest.pactVersionId ensures pv.sha != sha {
      if pv.sha == sha { assert HasSha(pv, v.pacticipantId, providerId, sha); }
    }
  }

  // ---- deleting ----

  // Deleting publications removes their index rows by cascade and leaves the rest.
  ghost function WithoutPublications(s: PactStore, ids: set<Id>): PactStore {
    s.(publications := (set p | p in s.publications && p.id !in ids),
       lpp := (set l | l in s.lpp && l.publicationId !in ids))
  }

  // Every pact whose highest revision goes, goes entirely.
  ghost predicate TakesWholePacts(s: PactStore, ids: set<Id>) {
    forall p, q | IsTop(s.publications, p) && p.id in ids && q in s.publications && SamePact(p, q) :: q.id in ids
  }

  // The argument of 20180720: the cascade leaves the index right exactly when no
  // pact loses its highest revision and keeps a lower one.
  lemma DeletionIsSafe(s: PactStore, ids: set<Id>)
    requires Consistent(s)
    ensures Consistent(WithoutPublications(s, ids)) <==> TakesWholePacts(s, ids)
  {
    if TakesWholePacts(s, ids) { WholePactsGo(s, ids); }
    if !TakesWholePacts(s, ids) { PartOfPactGoes(s, ids); }
  }

  lemma WholePactsGo(s: PactStore, ids: set<Id>)
    requires Consistent(s) && TakesWholePacts(s, ids)
    ensures Consistent(WithoutPublications(s, ids))
  {
    var t := WithoutPublications(s, ids);
    forall p | p in t.publications ensures Placed(t, p) { assert Placed(s, p); }
    forall p ensures IsTop(t.publications, p) <==> IsTop(s.publications, p) && p.id !in ids {
      if IsTop(t.publications, p) {
        var top := TopExists(s.publications, p);
        assert SamePact(top, p) && SamePact(p, top);
        assert top.id !in ids;
      }
    }
    forall l ensures l in t.lpp <==> l in TopEntries(t.publications) {
      if l in t.lpp {
        var p :| IsTop(s.publications, p) && l == IndexEntry(p);
      }
    }
  }

  lemma PartOfPactGoes(s: PactStore, ids: set<Id>)
    requires Consistent(s) && !TakesWholePacts(s, ids)
    ensures !Consistent(WithoutPublications(s, ids))
  {
    var t := WithoutPublications(s, ids);
    var p, q :| IsTop(s.publications, p) && p.id in ids && q in s.publications && SamePact(p, q) && q.id !in ids;
    var top := TopExists(t.publications, q);
    forall r | IsTop(s.publications, r) && SamePact(r, top) ensures r == p {
      assert SamePact(r, p) && SamePact(p, r);
    }
    assert IndexEntry(top) in TopEntries(t.publications) && IndexEntry(top) !in t.lpp;
  }

  // The ids of all revisions of the pacts that satisfy a condition on the pact.
  ghost function RevisionsOf(s: PactStore, pacts: set<PactKey>): set<Id> {
    set p | p in s.publications && PactKey(p.consumerVersionId, p.providerId) in pacts :: p.id
  }

  lemma WholePactsTaken(s: PactStore, pacts: set<PactKey>)
    requires PublicationKeys(s.publications)
    ensures TakesWholePacts(s, RevisionsOf(s, pacts))
  {
  }

  ghost function WithoutPacts(s: PactStore, pacts: set<PactKey>): PactStore {
    WithoutPublications(s, RevisionsOf(s, pacts))
  }

  ghost function PactsOfVersion(s: PactStore, versionId: Id): set<PactKey> {
    set p | p in s.publications && p.consumerVersionId == versionId :: PactKey(versionId, p.providerId)
  }

  // The consumer version is deleted after its publications.
  ghost function WithoutVersion(s: PactStore, versionId: Id): PactStore {
    var t := WithoutPacts(s, PactsOfVersion(s, versionId));
    t.(versions := (set v | v in t.versions && v.id != versionId),
       lpp := (set l | l in t.lpp && l.consumerVersionId != versionId))
  }

  lemma WithoutVersionConsistent(s: PactStore, versionId: Id)
    requires Consistent(s)
    ensures Consistent(WithoutVersion(s, versionId))
  {
    var pacts := PactsOfVersion(s, versionId);
    var t := WithoutPacts(s, pacts);
    WholePactsTaken(s, pacts);
    DeletionIsSafe(s, RevisionsOf(s, pacts));
    forall p | p in t.publications ensures p.consumerVersionId != versionId {
      assert p.consumerVersionId == versionId ==> PactKey(versionId, p.providerId) in pacts;
    }
    var u := WithoutVersion(s, versionId);
    forall p | p in u.publications ensures Placed(u, p) { assert Placed(t, p); }
    assert u.lpp == t.lpp;
  }

  // ---- runs ----

  // The place a version is given: the next number of a sequence, or the place its
  // number has among the pacticipant's versions as listed.
  datatype Ordering = ByDate(order: int) | ByNumber(list: seq<Id>, after: (string, string) -> bool)

  datatype Operation =
    | Publish(v: Version, providerId: Id, sha: string, now: int)
    | DeletePacts(pacts: set<PactKey>)
    | DeleteVersion(versionId: Id)
    | AddVersion(v: Version, ordering: Ordering)
    | AddPacticipant(c: Pacticipant)

  // The rows an operation names are there, and those it inserts do not clash with a
  // key or a unique index.
  ghost predicate Enabled(s: PactStore, op: Operation) {
    match op
    case Publish(v, providerId, _, _) => v in s.versions && Registered(s.pacticipants, providerId)
    case AddVersion(v, ordering) =>
      && (forall u | u in s.versions :: u.id != v.id) && Registered(s.pacticipants, v.pacticipantId) && v.order.None?
      && Fits(s.versions, v, ordering)
    case AddPacticipant(c) => forall d | d in s.pacticipants :: d.id != c.id
    case _ => true
  }

  ghost predicate Fits(versions: set<Version>, v: Version, ordering: Ordering) {
    match ordering
    case ByDate(order) =>
      order >= 0 && forall u | u in versions && u.pacticipantId == v.pacticipantId :: u.order != Some(order)
    case ByNumber(list, _) => OrderVersions.Listed(list, OrderVersions.ById(versions + {v}), v.pacticipantId)
  }

  // Inserting a version and setting its order.
  ghost function WithVersion(versions: set<Version>, v: Version, ordering: Ordering): set<Version>
    requires Fits(versions, v, ordering)
  {
    match ordering
    case ByDate(order) => versions + {v.(order := Some(order))}
    case ByNumber(list, after) => OrderVersions.WithVersion(versions, v, list, after)
  }

  ghost function Step(s: PactStore, op: Operation): PactStore
    requires Enabled(s, op)
  {
    match op
    case Publish(v, providerId, sha, now) => Published(s, v, providerId, sha, now)
    case DeletePacts(pacts) => WithoutPacts(s, pacts)
    case DeleteVersion(versionId) => WithoutVersion(s, versionId)
    case AddVersion(v, ordering) => s.(versions := WithVersion(s.versions, v, ordering))
    case AddPacticipant(c) => s.(pacticipants := s.pacticipants + {c})
  }

  lemma StepConsistent(s: PactStore, op: Operation)
    requires Consistent(s) && Enabled(s, op)
    ensures Consistent(Step(s, op))
  {
    match op
    case Publish(v, providerId, sha, now) => PublishedStaysConsistent(s, v, providerId, sha, now);
    case DeletePacts(pacts) =>
      WholePactsTaken(s, pacts);
      DeletionIsSafe(s, RevisionsOf(s, pacts));
    case DeleteVersion(versionId) => WithoutVersionConsistent(s, versionId);
    case AddVersion(v, ordering) => AddVersionConsistent(s, v, ordering);
    case AddPacticipant(c) =>
      var t := Step(s, op);
      forall id | Registered(s.pacticipants, id) ensures Registered(t.pacticipants, id) {
        var d :| d in s.pacticipants && d.id == id;
        assert d in t.pacticipants;
      }
      forall p | p in t.publications ensures Placed(t, p) { assert Placed(s, p); }
  }

  lemma AddVersionConsistent(s: PactStore, v: Version, ordering: Ordering)
    requires Consistent(s) && Registered(s.pacticipants, v.pacticipantId)
    requires (forall u | u in s.versions :: u.id != v.id) && Fits(s.versions, v, ordering)
    ensures Consistent(s.(versions := WithVersion(s.versions, v, ordering)))
  {
    var t := s.(versions := WithVersion(s.versions, v, ordering));
    SameVersionsAdded(s.versions, v, ordering);
    forall w | w in t.versions ensures Registered(t.pacticipants, w.pacticipantId) {
      assert OrderVersions.Represented(w, s.versions + {v});
    }
    forall p | p in t.publications ensures Placed(t, p) {
      assert Placed(s, p);
      var u :| u in s.versions && u.id == p.consumerVersionId && u.pacticipantId == p.consumerId;
      assert OrderVersions.Represented(u, t.versions);
    }
  }

  lemma SameVersionsAdded(versions: set<Version>, v: Version, ordering: Ordering)
    requires OrderVersions.VersionKeys(versions) && (forall u | u in versions :: u.id != v.id)
    requires Fits(versions, v, ordering)
    ensures OrderVersions.VersionKeys(WithVersion(versions, v, ordering))
    ensures OrderVersions.SameVersions(versions + {v}, WithVersion(versions, v, ordering))
  {
    match ordering
    case ByDate(order) => SameVersionsByDate(versions, v, order);
    case ByNumber(list, after) => OrderVersions.WithVersionKeeps(versions, v, list, after);
  }

  lemma SameVersionsByDate(versions: set<Version>, v: Version, order: int)
    ensures OrderVersions.SameVersions(versions + {v}, versions + {v.(order := Some(order))})
  {
    var before, placed := versions + {v}, versions + {v.(order := Some(order))};
    forall u | u in before ensures OrderVersions.Represented(u, placed) {
      assert (if u == v then v.(order := Some(order)) else u) in placed;
    }
    forall w | w in placed ensures OrderVersions.Represented(w, before) {
      assert (if w in versions then w else v) in before;
    }
  }

  // Places stay unique, and as long as every version has one every version keeps one.
  lemma StepOrdered(s: PactStore, op: Operation)
    requires Consistent(s) && OrderVersions.PlacesUnique(s.versions) && Enabled(s, op)
    ensures OrderVersions.PlacesUnique(Step(s, op).versions)
    ensures OrderVersions.AllPlaced(s.versions) ==> OrderVersions.AllPlaced(Step(s, op).versions)
  {
    match op
    case AddVersion(v, ordering) => AddVersionOrdered(s.versions, v, ordering);
    case _ =>
  }

  lemma AddVersionOrdered(versions: set<Version>, v: Version, ordering: Ordering)
    requires OrderVersions.VersionKeys(versions + {v}) && OrderVersions.PlacesUnique(versions) && v.order.None?
    requires Fits(versions, v, ordering)
    ensures OrderVersions.PlacesUnique(WithVersion(versions, v, ordering))
    ensures OrderVersions.AllPlaced(versions) ==> OrderVersions.AllPlaced(WithVersion(versions, v, ordering))
  {
    match ordering
    case ByDate(order) =>
    case ByNumber(list, after) => OrderVersions.WithVersionOrdered(versions, v, list, after);
  }

  // A new version of a known pacticipant can always be inserted in the order of the
  // numbers: its listing exists.
  lemma NumberAlwaysFits(s: PactStore, v: Version, after: (string, string) -> bool) returns (list: seq<Id>)
    requires Consistent(s) && OrderVersions.PlacesUnique(s.versions)
    requires (forall u | u in s.versions :: u.id != v.id) && Registered(s.pacticipants, v.pacticipantId)
    requires v.order.None?
    ensures Enabled(s, AddVersion(v, ByNumber(list, after)))
  {
    OrderVersions.NewRowOrders(s.versions, v);
    list := OrderVersions.ListingExists(OrderVersions.ById(s.versions + {v}), v.pacticipantId);
  }

  ghost predicate Runnable(s: PactStore, ops: seq<Operation>)
    decreases |ops|
  {
    ops == [] || (Enabled(s, ops[0]) && Runnable(Step(s, ops[0]), ops[1..]))
  }

  ghost function Run(s: PactStore, ops: seq<Operation>): PactStore
    requires Runnable(s, ops)
    decreases |ops|
  {
    if ops == [] then s else Run(Step(s, ops[0]), ops[1..])
  }

  // After any run of publishing and deleting the index holds exactly the highest
  // revision of every pact.
  lemma {:induction false} RunConsistent(s: PactStore, ops: seq<Operation>)
    requires Consistent(s) && Runnable(s, ops)
    ensures Consistent(Run(s, ops))
    decreases |ops|
  {
    if ops == [] {
    } else {
      StepConsistent(s, ops[0]);
      RunConsistent(Step(s, ops[0]), ops[1..]);
    }
  }

  lemma {:induction false} RunConcat(s: PactStore, first: seq<Operation>, next: seq<Operation>)
    requires Runnable(s, first) && Runnable(Run(s, first), next)
    ensures Runnable(s, first + next) && Run(s, first + next) == Run(Run(s, first), next)
    decreases |first|
  {
    if first == [] {
      assert first + next == next;
    } else {
      RunConcat(Step(s, first[0]), first[1..], next);
      assert (first + next)[0] == first[0] && (first + next)[1..] == first[1..] + next;
    }
  }

  lemma {:induction false} RunOrdered(s: PactStore, ops: seq<Operation>)
    requires Consistent(s) && OrderVersions.PlacesUnique(s.versions) && Runnable(s, ops)
    ensures OrderVersions.PlacesUnique(Run(s, ops).versions)
    ensures OrderVersions.AllPlaced(s.versions) ==> OrderVersions.AllPlaced(Run(s, ops).versions)
    decreases |ops|
  {
    if ops == [] {
    } else {
      StepConsistent(s, ops[0]);
      StepOrdered(s, ops[0]);
      RunOrdered(Step(s, ops[0]), ops[1..]);
    }
  }

  // The database of a store, without tags and verifications.
  ghost function Tables(s: PactStore): Database {
    Database(s.pacticipants, s.versions, s.pactVersions, s.publications, {}, {}, s.lpp, {})
  }

  // Over whatever tables a run leaves the second and the third definition of
  // latest_pact_publications_by_consumer_versions agree, and the first agrees with them
  // exactly when every published version has an order. A run that starts where every
  // version has one keeps it so.
  lemma ViewsAgreeAfterRun(s: PactStore, ops: seq<Operation>, db: Database)
    requires Consistent(s) && OrderVersions.PlacesUnique(s.versions)
    requires Runnable(s, ops) && Shows(db, Run(s, ops))
    ensures IndexCurrent(db) && PactVersionsOwned(db)
    ensures ByConsumerVersionsV2(db.lpp, AllPublications(db)) == ByConsumerVersionsV3(db.lpp, AllPublications(db))
    ensures ByConsumerVersionsV1(AllPublications(db)) == ByConsumerVersionsV3(db.lpp, AllPublications(db))
       <==> OrdersKnown(db)
    ensures OrderVersions.AllPlaced(s.versions) ==> OrdersKnown(db)
  {
    var t := Run(s, ops);
    RunConsistent(s, ops);
    RunOrdered(s, ops);
    ConsistentStoreIsCurrent(db, t);
    ViewsOverStore(t, db);
    RowsShowOrders(db);
  }

  lemma ViewsOverStore(s: PactStore, db: Database)
    requires Consistent(s) && OrderVersions.PlacesUnique(s.versions) && Shows(db, s)
    ensures ByConsumerVersionsV2(db.lpp, AllPublications(db)) == ByConsumerVersionsV3(db.lpp, AllPublications(db))
    ensures ByConsumerVersionsV1(AllPublications(db)) == ByConsumerVersionsV3(db.lpp, AllPublications(db))
       <==> forall r | r in AllPublications(db) :: r.consumerVersionOrder.Some?
  {
    ConsistentStoreIsCurrent(Tables(s), s);
    ByConsumerVersionsExactly(Tables(s));
    assert AllPublications(db) == AllPublications(Tables(s));
  }

  lemma RowsShowOrders(db: Database)
    requires PublicationsRefer(db) && OrderVersions.VersionKeys(db.versions)
    requires forall p, q | p in db.publications && q in db.publications && p.id == q.id :: p == q
    ensures OrdersKnown(db) <==> forall r | r in AllPublications(db) :: r.consumerVersionOrder.Some?
  {
    if forall r | r in AllPublications(db) :: r.consumerVersionOrder.Some? {
      forall p, v | p in db.publications && v in db.versions && v.id == p.consumerVersionId ensures v.order.Some? {
        var r := PublicationHasRow(db, p);
      }
    }
    if OrdersKnown(db) {
      forall r | r in AllPublications(db) ensures r.consumerVersionOrder.Some? {
        var p, v := RowDescribes(db, r);
      }
    }
  }
}
