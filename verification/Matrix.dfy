// The matrix: every publication beside every verification of its pact version,
// and the views that keep the newest of both.
module Matrix {
  import opened Basics
  import opened Sql
  import opened Schema
  import opened LatestPublications
  import opened LatestVerifications

  datatype ProviderVersion = ProviderVersion(id: Id, number: string, order: Num)

  datatype Outcome = Outcome(id: Id, success: bool, number: Num, executedAt: int, buildUrl: Option<string>)

  // A row of matrix. The two outer joins leave NULLs in the columns of a missing
  // provider version or verification.
  datatype MatrixRow = MatrixRow(
    pact: PublicationRow, providerVersion: Option<ProviderVersion>, verification: Option<Outcome>)

  ghost function ProviderVersionOf(s: Version): ProviderVersion { ProviderVersion(s.id, s.number, s.order) }

  ghost function OutcomeOf(v: Verification): Outcome {
    Outcome(v.id, v.success, v.number, v.executedAt, v.buildUrl)
  }

  ghost function VerifiedRow(r: PublicationRow, v: Verification, s: Version): MatrixRow {
    MatrixRow(r, Some(ProviderVersionOf(s)), Some(OutcomeOf(v)))
  }

  ghost predicate Verified(db: Database, r: PublicationRow) {
    exists v :: v in db.verifications && v.pactVersionId == r.pactVersionId
  }

  ghost predicate ByKnownVersion(db: Database, v: Verification) {
    exists s :: s in db.versions && v.providerVersionId == Some(s.id)
  }

  ghost function FullMatrix(db: Database): set<MatrixRow> {
    var rows := AllPublications(db);
    (set r, v, s | r in rows && v in db.verifications && s in db.versions
       && v.pactVersionId == r.pactVersionId && v.providerVersionId == Some(s.id) :: VerifiedRow(r, v, s))
    + (set r, v | r in rows && v in db.verifications && v.pactVersionId == r.pactVersionId && !ByKnownVersion(db, v)
         :: MatrixRow(r, None, Some(OutcomeOf(v))))
    + (set r | r in rows && !Verified(db, r) :: MatrixRow(r, None, None))
  }

  ghost function LatestRows(db: Database): set<PublicationRow> {
    ByConsumerVersionsV1(AllPublications(db))
  }

  // What the views assume of the base tables alone.
  ghost predicate BaseSound(db: Database) {
    Declared(db) && OrdersKnown(db) && PactVersionsOwned(db) && VerificationsOwned(db)
  }

  lemma LatestRowIsHighest(db: Database, r: PublicationRow)
    requires PrimaryKeys(db) && UniqueIndexes(db) && OrdersKnown(db) && r in AllPublications(db)
    ensures r in LatestRows(db) <==> IsHighestRevision(AllPublications(db), r)
    ensures r.consumerVersionOrder.Some?
  {
    AllPublicationsKeyed(db);
    RowsOrdered(db);
    LatestRevisionIsHighest(AllPublications(db), r);
  }

  // A pact has one latest revision.
  lemma LatestRowUnique(db: Database, r: PublicationRow, s: PublicationRow)
    requires PrimaryKeys(db) && UniqueIndexes(db) && OrdersKnown(db)
    requires r in LatestRows(db) && s in LatestRows(db)
    requires r.consumerVersionId == s.consumerVersionId && r.providerId == s.providerId
    ensures r == s
  {
    LatestRowIsHighest(db, r);
    LatestRowIsHighest(db, s);
    RowsAgree(db, r, s);
  }

  // A verification of a published pact version was made by a version of the
  // publication's provider.
  lemma VerificationOfRow(db: Database, r: PublicationRow, v: Verification) returns (s: Version)
    requires ForeignKeys(db) && PactVersionsOwned(db) && VerificationsOwned(db)
    requires r in AllPublications(db) && v in db.verifications && v.pactVersionId == r.pactVersionId
    ensures s in db.versions && v.providerVersionId == Some(s.id) && s.pacticipantId == r.providerId
  {
    var p, cv := RowDescribes(db, r);
    assert PublicationOwned(db, p) && PublicationRefers(db, p);
    assert VerificationOwned(db, v) && VerificationRefers(db, v);
    var pv :| pv in db.pactVersions && pv.id == v.pactVersionId;
    s :| s in db.versions && s.id == v.providerVersionId.value;
  }

  ghost predicate IsVerifiedRow(db: Database, m: MatrixRow, v: Verification, s: Version) {
    && v in db.verifications && s in db.versions && v.pactVersionId == m.pact.pactVersionId
    && v.providerVersionId == Some(s.id) && m == VerifiedRow(m.pact, v, s)
  }

  // Where a row of the matrix comes from. No verification lacks its version.
  lemma MatrixRowSource(db: Database, m: MatrixRow)
    requires BaseSound(db) && m in FullMatrix(db)
    ensures m.pact in AllPublications(db)
    ensures m.verification.None? ==> m == MatrixRow(m.pact, None, None) && !Verified(db, m.pact)
    ensures m.verification.Some? ==> exists v, s :: IsVerifiedRow(db, m, v, s)
  {
    var rows := AllPublications(db);
    forall r, v | r in rows && v in db.verifications && v.pactVersionId == r.pactVersionId
      ensures ByKnownVersion(db, v)
    {
      var s := VerificationOfRow(db, r, v);
    }
    if r, v, s :| r in rows && v in db.verifications && s in db.versions
                  && v.pactVersionId == r.pactVersionId && v.providerVersionId == Some(s.id)
                    && m == VerifiedRow(r, v, s)
    {
      assert IsVerifiedRow(db, m, v, s);
    }
  }

  lemma VerifiedRowSource(db: Database, m: MatrixRow) returns (v: Verification, s: Version)
    requires BaseSound(db) && m in FullMatrix(db) && m.verification.Some?
    ensures v in db.verifications && s in db.versions && v.pactVersionId == m.pact.pactVersionId
    ensures v.providerVersionId == Some(s.id) && m == VerifiedRow(m.pact, v, s) && m.pact in AllPublications(db)
    ensures s.pacticipantId == m.pact.providerId
  {
    MatrixRowSource(db, m);
    v, s :| IsVerifiedRow(db, m, v, s);
    var s' := VerificationOfRow(db, m.pact, v);
  }

  // What survives in the latest matrix (below) is a row of a latest revision.
  lemma LatestVerifiedRow(db: Database, m: MatrixRow) returns (v: Verification, s: Version)
    requires BaseSound(db) && m in FullMatrix(db) && m.verification.Some?
    requires IsLatestRevision(AllPublications(db), m.pact)
    ensures IsVerifiedRow(db, m, v, s) && m.pact in LatestRows(db)
  {
    v, s := VerifiedRowSource(db, m);
  }

  // latest_verification_id_for_consumer_version_and_provider_version
  datatype VersionPair = VersionPair(consumerVersionId: Id, providerVersionId: Num)

  ghost function PairOf(m: MatrixRow): VersionPair {
    VersionPair(m.pact.consumerVersionId,
                if m.providerVersion.Some? then Some(m.providerVersion.value.id) else None)
  }

  ghost function VerificationIdOf(m: MatrixRow): Num {
    if m.verification.Some? then Some(m.verification.value.id) else None
  }

  // as 000049 first defined it, grouping the matrix of the latest revisions,
  ghost function PairIds(db: Database): set<(VersionPair, Num)> {
    set m | m in FullMatrix(db) && IsLatestRevision(AllPublications(db), m.pact) :: (PairOf(m), VerificationIdOf(m))
  }

  ghost function LatestIdForPairs(db: Database): map<VersionPair, Num> {
    GroupMax(PairIds(db))
  }

  // and as 20180726 rewrote it, over the two index tables.
  ghost predicate IndexedVerifications(db: Database, pactVersionId: Id) {
    exists x :: x in db.lv && x.pactVersionId == pactVersionId
  }

  ghost function IndexedPairs(db: Database): set<(VersionPair, Num)> {
    (set l, p, x | l in db.lpp && p in db.publications && x in db.lv
       && p.id == l.publicationId && x.pactVersionId == p.pactVersionId
       :: (VersionPair(p.consumerVersionId, Some(x.providerVersionId)), Some(x.verificationId)))
    + (set l, p | l in db.lpp && p in db.publications && p.id == l.publicationId
      && !IndexedVerifications(db, p.pactVersionId)
         :: (VersionPair(p.consumerVersionId, None), None))
  }

  // The group of (consumer version, provider version) is the verifications of one
  // pact version by that provider version.
  lemma PairIdIsNewest(db: Database, r: PublicationRow, v: Verification)
    requires BaseSound(db) && r in LatestRows(db) && v in db.verifications && v.pactVersionId == r.pactVersionId
    ensures HasRow(LatestIdForPairs(db), VersionPair(r.consumerVersionId, v.providerVersionId), Some(v.id))
       <==> IsNewestByVersion(db, v)
  {
    GroupMaxIs(PairIds(db), VersionPair(r.consumerVersionId, v.providerVersionId), Some(v.id));
    PairIdsHold(db, r, v);
    if IsNewestByVersion(db, v) { NewestBoundsPair(db, r, v); }
    if PairBounded(db, r, v) { BoundedPairIsNewest(db, r, v); }
  }

  // Nothing in the pair's group exceeds v.
  ghost predicate PairBounded(db: Database, r: PublicationRow, v: Verification) {
    forall q | q in PairIds(db) && q.0 == VersionPair(r.consumerVersionId, v.providerVersionId) ::
      NotAbove(q.1, Some(v.id))
  }

  lemma NewestBoundsPair(db: Database, r: PublicationRow, v: Verification)
    requires BaseSound(db) && r in LatestRows(db) && IsNewestByVersion(db, v) && v.pactVersionId == r.pactVersionId
    ensures PairBounded(db, r, v)
  {
    forall q | q in PairIds(db) && q.0 == VersionPair(r.consumerVersionId, v.providerVersionId)
      ensures NotAbove(q.1, Some(v.id))
    {
      var w := PairIdSource(db, r, v, q);
    }
  }

  lemma BoundedPairIsNewest(db: Database, r: PublicationRow, v: Verification)
    requires BaseSound(db) && r in LatestRows(db) && v in db.verifications && v.pactVersionId == r.pactVersionId
    requires PairBounded(db, r, v)
    ensures IsNewestByVersion(db, v)
  {
    forall w | w in db.verifications && w.pactVersionId == v.pactVersionId && w.providerVersionId == v.providerVersionId
      ensures w.id <= v.id
    {
      PairIdsHold(db, r, w);
      PairEntryBelow(db, r, v, w);
    }
  }

  lemma PairEntryBelow(db: Database, r: PublicationRow, v: Verification, w: Verification)
    requires PairBounded(db, r, v) && v.providerVersionId == w.providerVersionId
    requires (VersionPair(r.consumerVersionId, w.providerVersionId), Some(w.id)) in PairIds(db)
    ensures w.id <= v.id
  {
    assert NotAbove((VersionPair(r.consumerVersionId, w.providerVersionId), Some(w.id)).1, Some(v.id));
  }

  lemma PairIdsHold(db: Database, r: PublicationRow, v: Verification)
    requires BaseSound(db) && r in LatestRows(db) && v in db.verifications && v.pactVersionId == r.pactVersionId
    ensures (VersionPair(r.consumerVersionId, v.providerVersionId), Some(v.id)) in PairIds(db)
  {
    var s := VerificationOfRow(db, r, v);
    var m := VerifiedRow(r, v, s);
    assert m in FullMatrix(db) && (PairOf(m), VerificationIdOf(m)) in PairIds(db);
  }

  // Entries of the same pair are verifications of the same pact version: the
  // provider version fixes the provider, and with it the pact.
  lemma PairIdSource(db: Database, r: PublicationRow, v: Verification, q: (VersionPair, Num)) returns (w: Verification)
    requires BaseSound(db) && r in LatestRows(db) && v in db.verifications && v.pactVersionId == r.pactVersionId
    requires q in PairIds(db) && q.0 == VersionPair(r.consumerVersionId, v.providerVersionId)
    ensures w in db.verifications && w.pactVersionId == v.pactVersionId && w.providerVersionId == v.providerVersionId
    ensures q.1 == Some(w.id)
  {
    var m :| m in FullMatrix(db) && IsLatestRevision(AllPublications(db), m.pact)
      && q == (PairOf(m), VerificationIdOf(m));
    var s := VerificationOfRow(db, r, v);
    MatrixRowSource(db, m);
    var s';
    w, s' := VerifiedRowSource(db, m);
    assert s' == s;
    LatestRowUnique(db, r, m.pact);
  }

  // The rows of the tables that 20180726 joins, the last one by an outer join.
  datatype PairJoin = PairJoin(
    indexed: LatestPublication, publication: Publication, verification: Option<LatestVerification>)

  ghost function PairJoins(db: Database): set<PairJoin> {
    (set l, p, x | l in db.lpp && p in db.publications && x in db.lv
       && p.id == l.publicationId && x.pactVersionId == p.pactVersionId :: PairJoin(l, p, Some(x)))
    + (set l, p | l in db.lpp && p in db.publications && p.id == l.publicationId
         && !IndexedVerifications(db, p.pactVersionId) :: PairJoin(l, p, None))
  }

  ghost function PairRow(d: PairJoin): (VersionPair, Num) {
    match d.verification
    case Some(x) => (VersionPair(d.publication.consumerVersionId, Some(x.providerVersionId)), Some(x.verificationId))
    case None => (VersionPair(d.publication.consumerVersionId, None), None)
  }

  // How often each row comes out of the joins.
  ghost function IndexedPairsAll(db: Database): multiset<(VersionPair, Num)> {
    Bag(PairJoins(db), PairRow)
  }

  // No consumer version has two latest revisions that nobody verified.
  ghost predicate OneUnverifiedEach(db: Database) {
    forall r, s | r in LatestRows(db) && s in LatestRows(db) && r.consumerVersionId == s.consumerVersionId
                  && !Verified(db, r) && !Verified(db, s) :: r == s
  }

  // 20180726 does not group, so it has every row of the grouped view once exactly when
  // that is so: else the group of that consumer version and no provider version comes
  // out once for each of those revisions.
  lemma IndexedPairsOnce(db: Database)
    requires ViewsSound(db)
    ensures IndexedPairsAll(db) == multiset(IndexedPairs(db)) <==> OneUnverifiedEach(db)
  {
    PairJoinsMakePairs(db);
    if OneUnverifiedEach(db) {
      PairsOnce(db);
    } else {
      var r, s :| r in LatestRows(db) && s in LatestRows(db) && r.consumerVersionId == s.consumerVersionId
        && !Verified(db, r) && !Verified(db, s) && r != s;
      PairTwice(db, r, s);
    }
  }

  lemma PairsOnce(db: Database)
    requires ViewsSound(db) && OneUnverifiedEach(db)
    ensures IndexedPairsAll(db) == multiset(set d | d in PairJoins(db) :: PairRow(d))
  {
    forall d, e | d in PairJoins(db) && e in PairJoins(db) && PairRow(d) == PairRow(e) ensures d == e {
      PairJoinUnique(db, d, e);
    }
    BagOnce(PairJoins(db), PairRow);
  }

  lemma PairTwice(db: Database, r: PublicationRow, s: PublicationRow)
    requires ViewsSound(db) && r in LatestRows(db) && s in LatestRows(db) && r != s
    requires r.consumerVersionId == s.consumerVersionId && !Verified(db, r) && !Verified(db, s)
    ensures IndexedPairsAll(db) != multiset(set d | d in PairJoins(db) :: PairRow(d))
  {
    var d, e := UnverifiedJoins(db, r, s);
    BagTwice(PairJoins(db), PairRow, d, e);
  }

  lemma UnverifiedJoins(db: Database, r: PublicationRow, s: PublicationRow) returns (d: PairJoin, e: PairJoin)
    requires ViewsSound(db) && r in LatestRows(db) && s in LatestRows(db) && r != s
    requires r.consumerVersionId == s.consumerVersionId && !Verified(db, r) && !Verified(db, s)
    ensures d in PairJoins(db) && e in PairJoins(db) && d != e && PairRow(d) == PairRow(e)
  {
    d := UnverifiedJoin(db, r);
    e := UnverifiedJoin(db, s);
    if r.providerId == s.providerId { LatestRowUnique(db, r, s); }
  }

  lemma PairJoinsMakePairs(db: Database)
    ensures (set d | d in PairJoins(db) :: PairRow(d)) == IndexedPairs(db)
  {
    forall q | q in IndexedPairs(db) ensures Made(PairJoins(db), PairRow, q) {
      if l, p, x :| l in db.lpp && p in db.publications && x in db.lv
                    && p.id == l.publicationId && x.pactVersionId == p.pactVersionId
                    && q == (VersionPair(p.consumerVersionId, Some(x.providerVersionId)), Some(x.verificationId))
      {
        assert PairRow(PairJoin(l, p, Some(x))) == q;
      } else {
        var l, p :| l in db.lpp && p in db.publications && p.id == l.publicationId
          && !IndexedVerifications(db, p.pactVersionId) && q == (VersionPair(p.consumerVersionId, None), None);
        assert PairRow(PairJoin(l, p, None)) == q;
      }
    }
  }

  lemma UnverifiedJoin(db: Database, r: PublicationRow) returns (d: PairJoin)
    requires ViewsSound(db) && r in LatestRows(db) && !Verified(db, r)
    ensures d in PairJoins(db) && d.indexed == IndexRow(r)
    ensures PairRow(d) == (VersionPair(r.consumerVersionId, None), None)
  {
    var l, p := LatestRowIndexed(db, r);
    NoIndexWithoutVerification(db, r);
    d := PairJoin(l, p, None);
  }

  // The latest revision a row of the joins is about.
  lemma PairJoinRow(db: Database, d: PairJoin) returns (r: PublicationRow)
    requires ViewsSound(db) && d in PairJoins(db)
    ensures r in LatestRows(db) && d.indexed == IndexRow(r) && Describes(db, r, d.publication)
    ensures d.verification.None? ==> !Verified(db, r)
    ensures d.verification.Some? ==> d.verification.value in db.lv
    ensures d.verification.Some? ==> d.verification.value.pactVersionId == r.pactVersionId
  {
    r := IndexedLatestRow(db, d.indexed, d.publication);
    var p, cv := RowDescribes(db, r);
    NoIndexWithoutVerification(db, r);
  }

  lemma PairJoinUnique(db: Database, d: PairJoin, e: PairJoin)
    requires ViewsSound(db) && OneUnverifiedEach(db)
    requires d in PairJoins(db) && e in PairJoins(db) && PairRow(d) == PairRow(e)
    ensures d == e
  {
    var r := PairJoinRow(db, d);
    var s := PairJoinRow(db, e);
    if d.verification.Some? {
      PopulatedKeyUnique(db, d.verification.value, e.verification.value);
      assert PublicationRefers(db, d.publication);
      assert PublicationOwned(db, d.publication) && PublicationOwned(db, e.publication);
      LatestRowUnique(db, r, s);
    }
    assert r == s;
  }

  // Both definitions have the same rows.
  lemma LatestIdForPairsAgree(db: Database, k: VersionPair, id: Num)
    requires ViewsSound(db)
    ensures HasRow(LatestIdForPairs(db), k, id) <==> (k, id) in IndexedPairs(db)
  {
    if HasRow(LatestIdForPairs(db), k, id) { GroupedPairIndexed(db, k, id); }
    if (k, id) in IndexedPairs(db) { IndexedPairGrouped(db, k, id); }
  }

  lemma GroupedPairIndexed(db: Database, k: VersionPair, id: Num)
    requires ViewsSound(db) && HasRow(LatestIdForPairs(db), k, id)
    ensures (k, id) in IndexedPairs(db)
  {
    GroupMaxIs(PairIds(db), k, id);
    assert (k, id) in PairIds(db);
    var m :| m in FullMatrix(db) && IsLatestRevision(AllPublications(db), m.pact)
      && (k, id) == (PairOf(m), VerificationIdOf(m));
    RowPairIndexed(db, m);
  }

  lemma RowPairIndexed(db: Database, m: MatrixRow)
    requires ViewsSound(db) && m in FullMatrix(db) && IsLatestRevision(AllPublications(db), m.pact)
    requires HasRow(LatestIdForPairs(db), PairOf(m), VerificationIdOf(m))
    ensures (PairOf(m), VerificationIdOf(m)) in IndexedPairs(db)
  {
    MatrixRowSource(db, m);
    var l, p := LatestRowIndexed(db, m.pact);
    if m.verification.Some? {
      var v, s := LatestVerifiedRow(db, m);
      PairIdIsNewest(db, m.pact, v);
      IndexHoldsNewest(db, v);
    } else {
      NoIndexWithoutVerification(db, m.pact);
    }
  }

  lemma LatestRowIndexed(db: Database, r: PublicationRow) returns (l: LatestPublication, p: Publication)
    requires PrimaryKeys(db) && UniqueIndexes(db) && OrdersKnown(db) && IndexCurrent(db) && r in LatestRows(db)
    ensures l in db.lpp && l == IndexRow(r) && Describes(db, r, p)
  {
    LatestRowIsHighest(db, r);
    l := IndexRow(r);
    var cv;
    p, cv := RowDescribes(db, r);
  }

  lemma NoIndexWithoutVerification(db: Database, r: PublicationRow)
    requires Declared(db) && VerificationsOwned(db) && VerificationIndexCurrent(db)
    ensures IndexedVerifications(db, r.pactVersionId) <==> Verified(db, r)
  {
    if x :| x in db.lv && x.pactVersionId == r.pactVersionId {
      var v := IndexedVerification(db, x);
    }
    if v :| v in db.verifications && v.pactVersionId == r.pactVersionId {
      var top := NewestExists(db, v);
      var x := NewestIsIndexed(db, top);
    }
  }

  lemma IndexedPairGrouped(db: Database, k: VersionPair, id: Num)
    requires ViewsSound(db) && (k, id) in IndexedPairs(db)
    ensures HasRow(LatestIdForPairs(db), k, id)
  {
    if l, p, x :| l in db.lpp && p in db.publications && x in db.lv
                  && p.id == l.publicationId && x.pactVersionId == p.pactVersionId
                  && (k, id) == (VersionPair(p.consumerVersionId, Some(x.providerVersionId)), Some(x.verificationId))
    {
      var r := IndexedLatestRow(db, l, p);
      var v := IndexedVerification(db, x);
      PairIdIsNewest(db, r, v);
    } else {
      var l, p :| l in db.lpp && p in db.publications && p.id == l.publicationId
        && !IndexedVerifications(db, p.pactVersionId) && (k, id) == (VersionPair(p.consumerVersionId, None), None);
      var r := IndexedLatestRow(db, l, p);
      NoIndexWithoutVerification(db, r);
      UnverifiedPairGrouped(db, r);
    }
  }

  lemma IndexedLatestRow(db: Database, l: LatestPublication, p: Publication) returns (r: PublicationRow)
    requires PrimaryKeys(db) && UniqueIndexes(db) && OrdersKnown(db) && IndexCurrent(db)
    requires l in db.lpp && p in db.publications && p.id == l.publicationId
    ensures r in LatestRows(db) && l == IndexRow(r)
    ensures r.consumerVersionId == p.consumerVersionId && r.pactVersionId == p.pactVersionId
  {
    var p', cv;
    r, p', cv := IndexRowSource(db, l);
    LatestRowIsHighest(db, r);
  }

  lemma UnverifiedPairGrouped(db: Database, r: PublicationRow)
    requires BaseSound(db) && r in LatestRows(db) && !Verified(db, r)
    ensures HasRow(LatestIdForPairs(db), VersionPair(r.consumerVersionId, None), None)
  {
    var k := VersionPair(r.consumerVersionId, None);
    var m := MatrixRow(r, None, None);
    assert m in FullMatrix(db) && (PairOf(m), VerificationIdOf(m)) in PairIds(db);
    forall q | q in PairIds(db) && q.0 == k ensures NotAbove(q.1, None) {
      var n :| n in FullMatrix(db) && IsLatestRevision(AllPublications(db), n.pact)
        && q == (PairOf(n), VerificationIdOf(n));
      MatrixRowSource(db, n);
    }
    GroupMaxIs(PairIds(db), k, None);
  }

  // latest_matrix_for_consumer_version_and_provider_version, as 20180204 fixed it:
  // UNION of the verified and the unverified rows of the latest revisions. 20180210
  // takes the same two halves of a materialised copy of matrix and joins them with
  // UNION ALL.
  ghost predicate InVerifiedHalf(db: Database, m: MatrixRow) {
    && IsLatestRevision(AllPublications(db), m.pact)
    && m.providerVersion.Some? && m.verification.Some?
    && HasRow(LatestIdForPairs(db), PairOf(m), VerificationIdOf(m))
  }

  ghost predicate InUnverifiedHalf(db: Database, m: MatrixRow) {
    IsLatestRevision(AllPublications(db), m.pact) && m.verification.None?
  }

  ghost function LatestMatrix(db: Database): set<MatrixRow> {
    (set m | m in FullMatrix(db) && InVerifiedHalf(db, m)) + (set m | m in FullMatrix(db) && InUnverifiedHalf(db, m))
  }

  // The rows of the tables that matrix joins, the last two by outer joins.
  datatype MatrixJoin = MatrixJoin(pact: PublicationJoin, verification: Option<Verification>, version: Option<Version>)

  ghost function MatrixJoins(db: Database): set<MatrixJoin> {
    (set j, v, s | j in PublicationJoins(db) && v in db.verifications && s in db.versions
       && v.pactVersionId == RowOf(j).pactVersionId && v.providerVersionId == Some(s.id) ::
         MatrixJoin(j, Some(v), Some(s)))
    + (set j, v | j in PublicationJoins(db) && v in db.verifications && v.pactVersionId == RowOf(j).pactVersionId
         && !ByKnownVersion(db, v) :: MatrixJoin(j, Some(v), None))
    + (set j | j in PublicationJoins(db) && !Verified(db, RowOf(j)) :: MatrixJoin(j, None, None))
  }

  ghost function JoinedRow(d: MatrixJoin): MatrixRow {
    MatrixRow(RowOf(d.pact), if d.version.Some? then Some(ProviderVersionOf(d.version.value)) else None,
              if d.verification.Some? then Some(OutcomeOf(d.verification.value)) else None)
  }

  // UNION ALL of the two halves, over an up to date copy of matrix: how often each row
  // comes out of the joins.
  ghost function LatestMatrixAll(db: Database): multiset<MatrixRow> {
    BagWhere(MatrixJoins(db), JoinedRow, m => InVerifiedHalf(db, m))
    + BagWhere(MatrixJoins(db), JoinedRow, m => InUnverifiedHalf(db, m))
  }

  // UNION ALL yields the rows of UNION, each once: the joins double no row of a half, and
  // the halves share none.
  lemma UnionAllIsUnion(db: Database)
    requires PrimaryKeys(db)
    ensures LatestMatrixAll(db) == multiset(LatestMatrix(db))
  {
    JoinsMakeMatrix(db);
    BagWhereOnce(MatrixJoins(db), JoinedRow, FullMatrix(db), m => InVerifiedHalf(db, m));
    BagWhereOnce(MatrixJoins(db), JoinedRow, FullMatrix(db), m => InUnverifiedHalf(db, m));
    BothParts(FullMatrix(db), m => InVerifiedHalf(db, m), m => InUnverifiedHalf(db, m), LatestMatrix(db));
  }

  lemma MatrixJoinUnique(db: Database, d: MatrixJoin, e: MatrixJoin)
    requires PrimaryKeys(db) && d in MatrixJoins(db) && e in MatrixJoins(db) && JoinedRow(d) == JoinedRow(e)
    ensures d == e
  {
    MatrixJoinIs(db, d);
    MatrixJoinIs(db, e);
    JoinedUnique(db, d.pact, e.pact);
  }

  lemma JoinsMakeMatrix(db: Database)
    requires PrimaryKeys(db)
    ensures MakesOnce(MatrixJoins(db), JoinedRow, FullMatrix(db))
  {
    forall d, e | d in MatrixJoins(db) && e in MatrixJoins(db) && JoinedRow(d) == JoinedRow(e) ensures d == e {
      MatrixJoinUnique(db, d, e);
    }
    forall m | m in FullMatrix(db) ensures Made(MatrixJoins(db), JoinedRow, m) {
      var d := MatrixRowJoined(db, m);
    }
    forall d | d in MatrixJoins(db) ensures JoinedRow(d) in FullMatrix(db) {
      JoinInMatrix(db, d);
    }
  }

  lemma JoinInMatrix(db: Database, d: MatrixJoin)
    requires d in MatrixJoins(db)
    ensures JoinedRow(d) in FullMatrix(db)
  {
    MatrixJoinIs(db, d);
    var r := RowOf(d.pact);
    assert r in AllPublications(db);
    if d.version.Some? {
      assert JoinedRow(d) == VerifiedRow(r, d.verification.value, d.version.value);
    } else if d.verification.Some? {
      assert JoinedRow(d) == MatrixRow(r, None, Some(OutcomeOf(d.verification.value)));
    } else {
      assert JoinedRow(d) == MatrixRow(r, None, None);
    }
  }

  lemma MatrixJoinIs(db: Database, d: MatrixJoin)
    requires d in MatrixJoins(db)
    ensures Joined(db, d.pact) && (d.version.Some? ==> d.verification.Some?)
    ensures d.verification.None? ==> !Verified(db, RowOf(d.pact))
    ensures d.verification.Some? ==>
              d.verification.value in db.verifications
                && d.verification.value.pactVersionId == RowOf(d.pact).pactVersionId
    ensures d.verification.Some? && d.version.None? ==> !ByKnownVersion(db, d.verification.value)
    ensures d.version.Some? ==>
              d.version.value in db.versions && d.verification.value.providerVersionId == Some(d.version.value.id)
  {
  }

  lemma MatrixRowJoined(db: Database, m: MatrixRow) returns (d: MatrixJoin)
    requires m in FullMatrix(db)
    ensures d in MatrixJoins(db) && JoinedRow(d) == m
  {
    var rows := AllPublications(db);
    if r, v, s :| r in rows && v in db.verifications && s in db.versions
                  && v.pactVersionId == r.pactVersionId && v.providerVersionId == Some(s.id)
                    && m == VerifiedRow(r, v, s)
    {
      var j := RowJoined(db, r);
      d := MatrixJoin(j, Some(v), Some(s));
    } else if r, v :| r in rows && v in db.verifications && v.pactVersionId == r.pactVersionId && !ByKnownVersion(db, v)
                      && m == MatrixRow(r, None, Some(OutcomeOf(v)))
    {
      var j := RowJoined(db, r);
      d := MatrixJoin(j, Some(v), None);
    } else {
      var r :| r in rows && !Verified(db, r) && m == MatrixRow(r, None, None);
      var j := RowJoined(db, r);
      d := MatrixJoin(j, None, None);
    }
  }

  // The rows of the fixed latest matrix.
  lemma InLatestMatrix(db: Database, r: PublicationRow, v: Verification, s: Version)
    requires BaseSound(db) && r in LatestRows(db) && v in db.verifications && s in db.versions
    requires v.pactVersionId == r.pactVersionId && v.providerVersionId == Some(s.id)
    ensures VerifiedRow(r, v, s) in LatestMatrix(db) <==> IsNewestByVersion(db, v)
  {
    PairIdIsNewest(db, r, v);
    VerifiedHalfHolds(db, r, v, s);
  }

  lemma VerifiedHalfHolds(db: Database, r: PublicationRow, v: Verification, s: Version)
    requires r in LatestRows(db) && v in db.verifications && s in db.versions
    requires v.pactVersionId == r.pactVersionId && v.providerVersionId == Some(s.id)
    ensures VerifiedRow(r, v, s) in LatestMatrix(db)
       <==> HasRow(LatestIdForPairs(db), VersionPair(r.consumerVersionId, v.providerVersionId), Some(v.id))
  {
    var m := VerifiedRow(r, v, s);
    assert m in FullMatrix(db);
    assert PairOf(m) == VersionPair(r.consumerVersionId, v.providerVersionId) && VerificationIdOf(m) == Some(v.id);
  }

  // One row for each consumer version and provider version that verified it: the
  // newest verification of the latest revision.
  lemma OneRowPerVerifiedPair(db: Database, r: PublicationRow, v: Verification) returns (m: MatrixRow)
    requires BaseSound(db) && r in LatestRows(db) && v in db.verifications && v.pactVersionId == r.pactVersionId
    ensures m in LatestMatrix(db) && PairOf(m) == VersionPair(r.consumerVersionId, v.providerVersionId) && m.pact == r
    ensures forall n | n in LatestMatrix(db) && PairOf(n) == PairOf(m) :: n == m
  {
    var top := NewestByVersionExists(db, v);
    var s := VerificationOfRow(db, r, top);
    m := VerifiedRow(r, top, s);
    InLatestMatrix(db, r, top, s);
    forall n | n in LatestMatrix(db) && PairOf(n) == PairOf(m) ensures n == m {
      PairHasVerification(db, n);
      SamePairSameRow(db, m, n);
    }
  }

  lemma PairHasVerification(db: Database, n: MatrixRow)
    requires BaseSound(db) && n in LatestMatrix(db) && PairOf(n).providerVersionId.Some?
    ensures n.verification.Some?
  {
    MatrixRowSource(db, n);
  }

  lemma SamePairSameRow(db: Database, m: MatrixRow, n: MatrixRow)
    requires BaseSound(db) && m in LatestMatrix(db) && n in LatestMatrix(db) && PairOf(n) == PairOf(m)
    requires m.verification.Some? && n.verification.Some?
    ensures m == n
  {
    var v, s := VerifiedRowSource(db, m);
    var w, t := VerifiedRowSource(db, n);
    assert s == t;
    LatestRowUnique(db, m.pact, n.pact);
    InLatestMatrix(db, m.pact, v, s);
    InLatestMatrix(db, n.pact, w, t);
    assert v.id == w.id;
  }

  lemma NewestByVersionExists(db: Database, v: Verification) returns (top: Verification)
    requires v in db.verifications
    ensures IsNewestByVersion(db, top)
    ensures top.pactVersionId == v.pactVersionId && top.providerVersionId == v.providerVersionId
  {
    var others :=
      set w | w in db.verifications && w.pactVersionId == v.pactVersionId && w.providerVersionId == v.providerVersionId;
    assert v in others;
    top := GreatestExists(others, (w: Verification) => w.id);
    assert forall w | w in db.verifications && w.pactVersionId == top.pactVersionId
                      && w.providerVersionId == top.providerVersionId :: w in others;
  }

  // And one row for each latest revision nobody verified; there are no others.
  lemma OneRowPerUnverifiedRevision(db: Database, r: PublicationRow)
    requires BaseSound(db) && r in LatestRows(db)
    ensures MatrixRow(r, None, None) in LatestMatrix(db) <==> !Verified(db, r)
    ensures forall n | n in LatestMatrix(db) && n.pact == r && n.verification.None? :: n == MatrixRow(r, None, None)
  {
    var m := MatrixRow(r, None, None);
    assert r in AllPublications(db);
    if m in LatestMatrix(db) { MatrixRowSource(db, m); }
    if !Verified(db, r) { assert m in FullMatrix(db); }
    forall n | n in LatestMatrix(db) && n.pact == r && n.verification.None? ensures n == m {
      MatrixRowSource(db, n);
    }
  }
}
