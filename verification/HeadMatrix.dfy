// The head matrix: the newest verification of the overall head pact and of each
// tag's head pact, once as a stack of views over the base tables alone and twice
// flattened over the index tables.
module HeadMatrix {
  import opened Basics
  import opened Sql
  import opened Schema
  import opened LatestPublications
  import opened TagHeads
  import opened LatestVerifications
  import opened Matrix

  // A row of head_pact_publications (20180122). A publication that is both the
  // overall head and a tag's head has a row for each.
  datatype Head = Head(pact: PublicationRow, tagName: Option<string>, latest: Num)

  datatype HeadRow = HeadRow(row: MatrixRow, tagName: Option<string>)

  ghost function OverallHeads(byVersion: set<PublicationRow>, orders: map<ConsumerProvider, Num>): set<Head> {
    set r | r in LatestPublicationRows(byVersion, orders) :: Head(r, None, Some(1))
  }

  // latest_tagged_pact_publications
  ghost function TagHeadRows(byVersion: set<PublicationRow>, orders: map<TagKey, Num>): set<Head> {
    set r, k | r in byVersion && k in orders && k.consumerId == r.consumerId && k.providerId == r.providerId
      && r.consumerVersionOrder.Some? && orders[k] == r.consumerVersionOrder
      :: Head(r, Some(k.tagName), None)
  }

  // Over the slow views, as the stack sees them.
  ghost function Heads(db: Database): set<Head> {
    var byVersion := LatestRows(db);
    OverallHeads(byVersion, LatestOrdersV1(AllPublications(db)))
    + TagHeadRows(byVersion, LatestTaggedOrdersV1(byVersion, db.tags))
  }

  // Over the index table, as the flattened definitions see them.
  ghost function IndexedHeads(db: Database): set<Head> {
    var byVersion := ByConsumerVersionsV3(db.lpp, AllPublications(db));
    OverallHeads(byVersion, LatestOrdersV2(db.lpp, db.versions))
    + TagHeadRows(byVersion, LatestTaggedOrdersV4(db.lpp, db.tags))
  }

  lemma HeadsAgree(db: Database)
    requires TagViewsSound(db)
    ensures Heads(db) == IndexedHeads(db)
  {
    ByConsumerVersionsAgree(db);
    LatestOrdersAgree(db);
    LatestTaggedOrdersAgree(db);
  }

  // latest_verification_id_for_consumer_version_and_provider (20180129)
  datatype VersionProvider = VersionProvider(consumerVersionId: Id, providerId: Id)

  ghost function ProviderKey(r: PublicationRow): VersionProvider {
    VersionProvider(r.consumerVersionId, r.providerId)
  }

  ghost function ProviderIds(db: Database): set<(VersionProvider, Num)> {
    set m | m in LatestMatrix(db) && m.verification.Some?
      :: (ProviderKey(m.pact), Some(m.verification.value.id))
  }

  ghost function LatestIdForProviders(db: Database): map<VersionProvider, Num> {
    GroupMax(ProviderIds(db))
  }

  ghost predicate OnHead(m: MatrixRow, h: Head) {
    && m.pact.consumerId == h.pact.consumerId && m.pact.providerId == h.pact.providerId
    && m.pact.consumerVersionOrder == h.pact.consumerVersionOrder && m.pact.consumerVersionOrder.Some?
  }

  ghost predicate NewestForProvider(db: Database, m: MatrixRow) {
    m.verification.Some?
    && HasRow(LatestIdForProviders(db), ProviderKey(m.pact),
              Some(m.verification.value.id))
  }

  // head_matrix as 20180207 stacked it.
  ghost function StackedHeadMatrix(db: Database): set<HeadRow> {
    (set m, h | m in LatestMatrix(db) && h in Heads(db) && OnHead(m, h) && NewestForProvider(db, m) ::
      HeadRow(m, h.tagName))
    + (set m, h | m in LatestMatrix(db) && h in Heads(db) && OnHead(m, h) && m.verification.None? ::
      HeadRow(m, h.tagName))
  }

  // A row of latest_verifications_for_pact_versions or of latest_verifications.
  datatype VerificationRow = VerificationRow(pactVersionId: Id, providerVersion: ProviderVersion, outcome: Outcome)

  // Chosen by highest id,
  ghost function NewestById(db: Database): set<VerificationRow> {
    set v, s | v in db.verifications && s in db.versions && v.providerVersionId == Some(s.id)
      && HasRow(LatestIdsForPactVersions(db.lv), v.pactVersionId, Some(v.id))
      :: VerificationRow(v.pactVersionId, ProviderVersionOf(s), OutcomeOf(v))
  }

  // or by highest number.
  ghost function NumbersByPactVersion(db: Database): set<(Id, Num)> {
    set v | v in db.verifications :: (v.pactVersionId, v.number)
  }

  ghost function HighestByNumber(db: Database): set<VerificationRow> {
    set v, s | v in db.verifications && s in db.versions && v.providerVersionId == Some(s.id)
      && v.number.Some? && HasRow(GroupMax(NumbersByPactVersion(db)), v.pactVersionId, v.number)
      :: VerificationRow(v.pactVersionId, ProviderVersionOf(s), OutcomeOf(v))
  }

  // p left outer join latest
  ghost function WithVerification(p: PublicationRow, latest: set<VerificationRow>): set<MatrixRow> {
    var matches := set x | x in latest && x.pactVersionId == p.pactVersionId
                     :: MatrixRow(p, Some(x.providerVersion), Some(x.outcome));
    if matches == {} then {MatrixRow(p, None, None)} else matches
  }

  ghost function FlatHeadMatrix(heads: set<Head>, latest: set<VerificationRow>): set<HeadRow> {
    set h, m | h in heads && m in WithVerification(h.pact, latest) :: HeadRow(m, h.tagName)
  }

  ghost function HeadMatrixV1(db: Database): set<HeadRow> { FlatHeadMatrix(IndexedHeads(db), HighestByNumber(db)) }

  ghost function HeadMatrixV2(db: Database): set<HeadRow> { FlatHeadMatrix(IndexedHeads(db), NewestById(db)) }

  // What a row of the head matrix should be: a head with the newest verification
  // of its pact version, or with NULLs when there is none.
  ghost predicate IsNewestFor(db: Database, p: PublicationRow, m: MatrixRow) {
    if m.verification.None? then m == MatrixRow(p, None, None) && !Verified(db, p)
    else exists v, s :: IsVerifiedRow(db, m, v, s) && m.pact == p && IsNewest(db, v)
  }

  ghost predicate IsHeadRow(db: Database, heads: set<Head>, x: HeadRow) {
    exists h :: h in heads && x.tagName == h.tagName && IsNewestFor(db, h.pact, x.row)
  }

  lemma HeadIsLatestRow(db: Database, h: Head)
    requires h in Heads(db)
    ensures h.pact in LatestRows(db)
  {
  }

  lemma NewestForExists(db: Database, p: PublicationRow) returns (m: MatrixRow)
    requires BaseSound(db) && p in LatestRows(db)
    ensures IsNewestFor(db, p, m) && m.pact == p
    ensures forall n | IsNewestFor(db, p, n) :: n == m
  {
    if v :| v in db.verifications && v.pactVersionId == p.pactVersionId {
      var top := NewestExists(db, v);
      var s := VerificationOfRow(db, p, top);
      m := VerifiedRow(p, top, s);
      assert IsVerifiedRow(db, m, top, s);
    } else {
      m := MatrixRow(p, None, None);
    }
    forall n | IsNewestFor(db, p, n) ensures n == m { NewestForUnique(db, p, m, n); }
  }

  lemma NewestForUnique(db: Database, p: PublicationRow, m: MatrixRow, n: MatrixRow)
    requires PrimaryKeys(db) && IsNewestFor(db, p, m) && IsNewestFor(db, p, n)
    ensures m == n
  {
    if m.verification.Some? && n.verification.Some? {
      var v, s :| IsVerifiedRow(db, m, v, s) && m.pact == p && IsNewest(db, v);
      var w, t :| IsVerifiedRow(db, n, w, t) && n.pact == p && IsNewest(db, w);
      assert v.id == w.id;
    }
  }

  // The newest verification of a latest revision's pact version is the one the
  // stack of grouped views arrives at.
  lemma StackFindsNewest(db: Database, m: MatrixRow)
    requires BaseSound(db) && m.pact in LatestRows(db)
    ensures (m in LatestMatrix(db) && (NewestForProvider(db, m) || m.verification.None?)) <==>
              IsNewestFor(db, m.pact, m)
  {
    if m.verification.None? {
      OneRowPerUnverifiedRevision(db, m.pact);
    } else {
      if m in LatestMatrix(db) && NewestForProvider(db, m) { ProviderMaxIsNewest(db, m); }
      if IsNewestFor(db, m.pact, m) { NewestIsProviderMax(db, m); }
    }
  }

  lemma ProviderMaxIsNewest(db: Database, m: MatrixRow)
    requires BaseSound(db) && m in LatestMatrix(db) && NewestForProvider(db, m)
    ensures IsNewestFor(db, m.pact, m)
  {
    var v, s := VerifiedRowSource(db, m);
    forall w | w in db.verifications && w.pactVersionId == v.pactVersionId ensures w.id <= v.id {
      var top := NewestExists(db, w);
      NewestHasProviderId(db, m.pact, top);
      ProviderIdsBelow(db, m, top.id);
    }
    assert IsVerifiedRow(db, m, v, s) && IsNewest(db, v);
  }

  lemma NewestHasProviderId(db: Database, p: PublicationRow, v: Verification)
    requires BaseSound(db) && p in LatestRows(db) && IsNewest(db, v) && v.pactVersionId == p.pactVersionId
    ensures (ProviderKey(p), Some(v.id)) in ProviderIds(db)
  {
    var s := VerificationOfRow(db, p, v);
    InLatestMatrix(db, p, v, s);
    var n := VerifiedRow(p, v, s);
    assert n in LatestMatrix(db) && n.verification.Some?;
  }

  lemma ProviderIdsBelow(db: Database, m: MatrixRow, id: Id)
    requires NewestForProvider(db, m) && (ProviderKey(m.pact), Some(id)) in ProviderIds(db)
    ensures id <= m.verification.value.id
  {
    GroupMaxIs(ProviderIds(db), ProviderKey(m.pact), Some(m.verification.value.id));
    assert NotAbove((ProviderKey(m.pact), Some(id)).1, Some(m.verification.value.id));
  }

  lemma NewestIsProviderMax(db: Database, m: MatrixRow)
    requires BaseSound(db) && m.pact in LatestRows(db) && m.verification.Some? && IsNewestFor(db, m.pact, m)
    ensures m in LatestMatrix(db) && NewestForProvider(db, m)
  {
    var v, s :| IsVerifiedRow(db, m, v, s) && IsNewest(db, v);
    InLatestMatrix(db, m.pact, v, s);
    NewestHasProviderId(db, m.pact, v);
    var k := ProviderKey(m.pact);
    forall q | q in ProviderIds(db) && q.0 == k ensures NotAbove(q.1, Some(v.id)) {
      ProviderIdBounded(db, m.pact, v, q);
    }
    GroupMaxIs(ProviderIds(db), k, Some(v.id));
  }

  lemma ProviderIdBounded(db: Database, p: PublicationRow, v: Verification, q: (VersionProvider, Num))
    requires BaseSound(db) && p in LatestRows(db) && IsNewest(db, v) && v.pactVersionId == p.pactVersionId
    requires q in ProviderIds(db) && q.0 == ProviderKey(p)
    ensures NotAbove(q.1, Some(v.id))
  {
    var n :| n in LatestMatrix(db) && n.verification.Some?
      && q == (ProviderKey(n.pact), Some(n.verification.value.id));
    SameProviderOlder(db, p, v, n);
  }

  lemma SameProviderOlder(db: Database, p: PublicationRow, v: Verification, n: MatrixRow)
    requires BaseSound(db) && p in LatestRows(db) && IsNewest(db, v) && v.pactVersionId == p.pactVersionId
    requires n in LatestMatrix(db) && n.verification.Some? && ProviderKey(n.pact) == ProviderKey(p)
    ensures n.verification.value.id <= v.id
  {
    var w, t := LatestVerifiedRow(db, n);
    SameProviderSamePact(db, p, v, n, w, t);
  }

  lemma SameProviderSamePact(db: Database, p: PublicationRow, v: Verification, n: MatrixRow, w: Verification,
                             t: Version)
    requires PrimaryKeys(db) && UniqueIndexes(db) && OrdersKnown(db)
    requires p in LatestRows(db) && IsNewest(db, v) && v.pactVersionId == p.pactVersionId
    requires n.pact in LatestRows(db) && IsVerifiedRow(db, n, w, t) && ProviderKey(n.pact) == ProviderKey(p)
    ensures w.id <= v.id
  {
    LatestRowUnique(db, n.pact, p);
  }

  lemma OnHeadIsHead(db: Database, m: MatrixRow, h: Head)
    requires PrimaryKeys(db) && UniqueIndexes(db) && OrdersKnown(db)
    requires m.pact in LatestRows(db) && h in Heads(db)
    ensures OnHead(m, h) <==> m.pact == h.pact
  {
    HeadIsLatestRow(db, h);
    LatestRowIsHighest(db, h.pact);
    if OnHead(m, h) {
      RowsAgree(db, m.pact, h.pact);
      LatestRowUnique(db, m.pact, h.pact);
    }
  }

  // The stack returns exactly the heads with their newest verification.
  lemma StackedHeadMatrixIs(db: Database, x: HeadRow)
    requires BaseSound(db)
    ensures x in StackedHeadMatrix(db) <==> IsHeadRow(db, Heads(db), x)
  {
    if x in StackedHeadMatrix(db) {
      var m, h :| m in LatestMatrix(db) && h in Heads(db) && OnHead(m, h)
        && (NewestForProvider(db, m) || m.verification.None?) && x == HeadRow(m, h.tagName);
      StackedPairIsHead(db, m, h);
    }
    if IsHeadRow(db, Heads(db), x) {
      var h :| h in Heads(db) && x.tagName == h.tagName && IsNewestFor(db, h.pact, x.row);
      HeadIsStacked(db, h, x.row);
    }
  }

  lemma StackedPairIsHead(db: Database, m: MatrixRow, h: Head)
    requires BaseSound(db) && m in LatestMatrix(db) && h in Heads(db) && OnHead(m, h)
    requires NewestForProvider(db, m) || m.verification.None?
    ensures IsNewestFor(db, h.pact, m)
  {
    LatestMatrixPact(db, m);
    OnHeadIsHead(db, m, h);
    StackFindsNewest(db, m);
  }

  lemma LatestMatrixPact(db: Database, m: MatrixRow)
    requires BaseSound(db) && m in LatestMatrix(db)
    ensures m.pact in LatestRows(db)
  {
    MatrixRowSource(db, m);
  }

  lemma HeadIsStacked(db: Database, h: Head, m: MatrixRow)
    requires BaseSound(db) && h in Heads(db) && IsNewestFor(db, h.pact, m)
    ensures m in LatestMatrix(db) && OnHead(m, h) && (NewestForProvider(db, m) || m.verification.None?)
  {
    HeadIsLatestRow(db, h);
    StackFindsNewest(db, m);
    OnHeadIsHead(db, m, h);
  }

  lemma NewestByIdSource(db: Database, x: VerificationRow) returns (v: Verification, s: Version)
    requires Declared(db) && VerificationsOwned(db) && VerificationIndexCurrent(db) && x in NewestById(db)
    ensures IsNewest(db, v) && s in db.versions && v.providerVersionId == Some(s.id)
    ensures x == VerificationRow(v.pactVersionId, ProviderVersionOf(s), OutcomeOf(v))
  {
    v, s :| v in db.verifications && s in db.versions && v.providerVersionId == Some(s.id)
      && HasRow(LatestIdsForPactVersions(db.lv), v.pactVersionId, Some(v.id))
      && x == VerificationRow(v.pactVersionId, ProviderVersionOf(s), OutcomeOf(v));
    LatestIdIsNewest(db, v);
  }

  lemma NewestByIdHolds(db: Database, v: Verification, s: Version)
    requires Declared(db) && VerificationsOwned(db) && VerificationIndexCurrent(db)
    requires IsNewest(db, v) && s in db.versions && v.providerVersionId == Some(s.id)
    ensures VerificationRow(v.pactVersionId, ProviderVersionOf(s), OutcomeOf(v)) in NewestById(db)
  {
    LatestIdIsNewest(db, v);
  }

  // The flat left join gives a head its newest verification and nothing else.
  lemma FlatFindsNewest(db: Database, p: PublicationRow, m: MatrixRow)
    requires BaseSound(db) && VerificationIndexCurrent(db) && p in LatestRows(db)
    ensures m in WithVerification(p, NewestById(db)) <==> IsNewestFor(db, p, m)
  {
    var n := NewestForExists(db, p);
    NewestOnly(db, p, n);
  }

  lemma NewestOnly(db: Database, p: PublicationRow, n: MatrixRow)
    requires Declared(db) && VerificationsOwned(db) && VerificationIndexCurrent(db) && IsNewestFor(db, p, n)
    ensures WithVerification(p, NewestById(db)) == {n}
  {
    MatchesAreNewest(db, p, n);
    if n.verification.Some? {
      var v, s :| IsVerifiedRow(db, n, v, s) && n.pact == p && IsNewest(db, v);
      NewestByIdHolds(db, v, s);
      MatchHolds(p, NewestById(db), VerificationRow(v.pactVersionId, ProviderVersionOf(s), OutcomeOf(v)), n);
    }
    OnlyMatch(p, NewestById(db), n);
  }

  lemma MatchHolds(p: PublicationRow, latest: set<VerificationRow>, x: VerificationRow, n: MatrixRow)
    requires x in latest && x.pactVersionId == p.pactVersionId
    requires n == MatrixRow(p, Some(x.providerVersion), Some(x.outcome))
    ensures n in WithVerification(p, latest)
  {
  }

  lemma OnlyMatch(p: PublicationRow, latest: set<VerificationRow>, n: MatrixRow)
    requires n in WithVerification(p, latest)
    requires forall x | x in latest && x.pactVersionId == p.pactVersionId ::
      n == MatrixRow(p, Some(x.providerVersion), Some(x.outcome))
    ensures WithVerification(p, latest) == {n}
  {
  }

  lemma MatchesAreNewest(db: Database, p: PublicationRow, n: MatrixRow)
    requires Declared(db) && VerificationsOwned(db) && VerificationIndexCurrent(db) && IsNewestFor(db, p, n)
    ensures forall x | x in NewestById(db) && x.pactVersionId == p.pactVersionId ::
      n == MatrixRow(p, Some(x.providerVersion), Some(x.outcome))
  {
    forall x | x in NewestById(db) && x.pactVersionId == p.pactVersionId
      ensures n == MatrixRow(p, Some(x.providerVersion), Some(x.outcome))
    {
      var v, s := NewestByIdSource(db, x);
      var y := MatrixRow(p, Some(x.providerVersion), Some(x.outcome));
      assert IsVerifiedRow(db, y, v, s);
      NewestForUnique(db, p, n, y);
    }
  }

  lemma FlatHeadMatrixIs(db: Database, heads: set<Head>, x: HeadRow)
    requires BaseSound(db) && VerificationIndexCurrent(db)
    requires forall h | h in heads :: h.pact in LatestRows(db)
    ensures x in FlatHeadMatrix(heads, NewestById(db)) <==> IsHeadRow(db, heads, x)
  {
    if x in FlatHeadMatrix(heads, NewestById(db)) {
      var h, m :| h in heads && m in WithVerification(h.pact, NewestById(db)) && x == HeadRow(m, h.tagName);
      FlatFindsNewest(db, h.pact, m);
    }
    if IsHeadRow(db, heads, x) {
      var h :| h in heads && x.tagName == h.tagName && IsNewestFor(db, h.pact, x.row);
      FlatFindsNewest(db, h.pact, x.row);
    }
  }

  lemma HeadMatrixV2Is(db: Database, x: HeadRow)
    requires ViewsSound(db)
    ensures x in HeadMatrixV2(db) <==> IsHeadRow(db, Heads(db), x)
  {
    HeadsAgree(db);
    forall h | h in Heads(db) ensures h.pact in LatestRows(db) { HeadIsLatestRow(db, h); }
    FlatHeadMatrixIs(db, Heads(db), x);
  }

  // The stack over the base tables and the flat view over the index tables are
  // the same view.
  lemma StackedIsFlat(db: Database)
    requires ViewsSound(db)
    ensures StackedHeadMatrix(db) == HeadMatrixV2(db)
  {
    forall x ensures x in StackedHeadMatrix(db) <==> x in HeadMatrixV2(db) {
      StackedHeadMatrixIs(db, x);
      HeadMatrixV2Is(db, x);
    }
  }

  // There is exactly one row for each head, so UNION ALL never repeats one.
  lemma OneRowPerHead(db: Database, h: Head) returns (x: HeadRow)
    requires ViewsSound(db) && h in Heads(db)
    ensures x in HeadMatrixV2(db) && x.row.pact == h.pact && x.tagName == h.tagName
    ensures forall y | y in HeadMatrixV2(db) && y.row.pact == h.pact && y.tagName == h.tagName :: y == x
    ensures forall g | g in Heads(db) && g.pact == h.pact && g.tagName == h.tagName :: g == h
  {
    HeadIsLatestRow(db, h);
    x := HeadRowExists(db, Heads(db), h);
    HeadMatrixV2Is(db, x);
    forall y | y in HeadMatrixV2(db) && y.row.pact == h.pact && y.tagName == h.tagName ensures y == x {
      HeadMatrixV2Is(db, y);
      HeadRowDetermined(db, Heads(db), x, y);
    }
    forall g | g in Heads(db) && g.pact == h.pact && g.tagName == h.tagName ensures g == h {
      HeadsDetermined(db, g, h);
    }
  }

  lemma HeadRowExists(db: Database, heads: set<Head>, h: Head) returns (x: HeadRow)
    requires BaseSound(db) && h in heads && h.pact in LatestRows(db)
    ensures IsHeadRow(db, heads, x) && x.row.pact == h.pact && x.tagName == h.tagName
  {
    var m := NewestForExists(db, h.pact);
    x := HeadRow(m, h.tagName);
  }

  lemma HeadRowDetermined(db: Database, heads: set<Head>, x: HeadRow, y: HeadRow)
    requires PrimaryKeys(db) && IsHeadRow(db, heads, x) && IsHeadRow(db, heads, y)
    requires x.row.pact == y.row.pact && x.tagName == y.tagName
    ensures x == y
  {
    var g :| g in heads && x.tagName == g.tagName && IsNewestFor(db, g.pact, x.row);
    var h :| h in heads && y.tagName == h.tagName && IsNewestFor(db, h.pact, y.row);
    NewestForUnique(db, g.pact, x.row, y.row);
  }

  lemma HeadsDetermined(db: Database, g: Head, h: Head)
    requires g in Heads(db) && h in Heads(db) && g.pact == h.pact && g.tagName == h.tagName
    ensures g == h
  {
  }

  // The verification with the highest id also has the highest number.
  ghost predicate NumberedInOrder(db: Database, pactVersionId: Id) {
    forall v | IsNewest(db, v) && v.pactVersionId == pactVersionId ::
      v.number.Some? && forall w | w in db.verifications && w.pactVersionId == pactVersionId ::
        NotAbove(w.number, v.number)
  }

  lemma HighestByNumberHolds(db: Database, v: Verification, s: Version)
    requires PrimaryKeys(db)
    requires v in db.verifications && s in db.versions && v.providerVersionId == Some(s.id)
    ensures VerificationRow(v.pactVersionId, ProviderVersionOf(s), OutcomeOf(v)) in HighestByNumber(db)
       <==> v.number.Some? && forall w | w in db.verifications && w.pactVersionId == v.pactVersionId ::
         NotAbove(w.number, v.number)
  {
    var base := NumbersByPactVersion(db);
    GroupMaxIs(base, v.pactVersionId, v.number);
    assert (v.pactVersionId, v.number) in base;
    if HasRow(GroupMax(base), v.pactVersionId, v.number) {
      forall w | w in db.verifications && w.pactVersionId == v.pactVersionId ensures NotAbove(w.number, v.number) {
        assert (w.pactVersionId, w.number) in base;
      }
    }
  }

  // Both joins give a head the same rows exactly when numbers rise with ids where
  // it matters.
  lemma NumberAgreesWithId(db: Database, p: PublicationRow)
    requires BaseSound(db) && VerificationIndexCurrent(db) && p in LatestRows(db)
    ensures WithVerification(p, HighestByNumber(db)) == WithVerification(p, NewestById(db))
       <==> NumberedInOrder(db, p.pactVersionId)
  {
    var n := NewestForExists(db, p);
    NewestOnly(db, p, n);
    if n.verification.Some? {
      var v, s :| IsVerifiedRow(db, n, v, s) && n.pact == p && IsNewest(db, v);
      NumberFindsNewest(db, p, n, v, s);
      OnlyNewestCounts(db, v);
    } else {
      assert WithVerification(p, HighestByNumber(db)) == {n};
    }
  }

  lemma OnlyNewestCounts(db: Database, v: Verification)
    requires PrimaryKeys(db) && IsNewest(db, v)
    ensures NumberedInOrder(db, v.pactVersionId) <==>
      (v.number.Some? && forall w | w in db.verifications && w.pactVersionId == v.pactVersionId ::
        NotAbove(w.number, v.number))
  {
    assert forall u | IsNewest(db, u) && u.pactVersionId == v.pactVersionId :: u.id == v.id;
  }

  lemma NumberFindsNewest(db: Database, p: PublicationRow, n: MatrixRow, v: Verification, s: Version)
    requires PrimaryKeys(db) && UniqueIndexes(db) && IsVerifiedRow(db, n, v, s) && n.pact == p && IsNewest(db, v)
    ensures WithVerification(p, HighestByNumber(db)) == {n} <==>
      v.number.Some? && forall w | w in db.verifications && w.pactVersionId == v.pactVersionId ::
        NotAbove(w.number, v.number)
  {
    var latest := HighestByNumber(db);
    var x := VerificationRow(v.pactVersionId, ProviderVersionOf(s), OutcomeOf(v));
    HighestByNumberHolds(db, v, s);
    if x in latest {
      forall y | y in latest && y.pactVersionId == p.pactVersionId ensures y == x { SameHighest(db, x, y, v, s); }
      assert n in WithVerification(p, latest);
      assert WithVerification(p, latest) == {n};
    }
    if n in WithVerification(p, latest) {
      var y :| y in latest && y.pactVersionId == p.pactVersionId
        && n == MatrixRow(p, Some(y.providerVersion), Some(y.outcome));
      assert y == x;
    }
  }

  lemma SameHighest(db: Database, x: VerificationRow, y: VerificationRow, v: Verification, s: Version)
    requires PrimaryKeys(db) && UniqueIndexes(db) && v in db.verifications && s in db.versions
    requires v.providerVersionId == Some(s.id)
    requires x == VerificationRow(v.pactVersionId, ProviderVersionOf(s), OutcomeOf(v))
    requires x in HighestByNumber(db) && y in HighestByNumber(db) && x.pactVersionId == y.pactVersionId
    ensures x == y
  {
    var w, t :| w in db.verifications && t in db.versions && w.providerVersionId == Some(t.id)
      && w.number.Some? && HasRow(GroupMax(NumbersByPactVersion(db)), w.pactVersionId, w.number)
      && y == VerificationRow(w.pactVersionId, ProviderVersionOf(t), OutcomeOf(w));
    HighestByNumberHolds(db, v, s);
    HighestByNumberHolds(db, w, t);
    assert v.number == w.number;
  }

  // HEAD_MATRIX_V1 and HEAD_MATRIX_V2 agree exactly when, on every head, the
  // verification with the highest id is the one with the highest number.
  lemma HeadMatrixV1Agrees(db: Database)
    requires ViewsSound(db)
    ensures HeadMatrixV1(db) == HeadMatrixV2(db)
       <==> forall h | h in Heads(db) :: NumberedInOrder(db, h.pact.pactVersionId)
  {
    HeadsAgree(db);
    forall h | h in Heads(db)
      ensures WithVerification(h.pact, HighestByNumber(db)) == WithVerification(h.pact, NewestById(db))
         <==> NumberedInOrder(db, h.pact.pactVersionId)
    {
      HeadIsLatestRow(db, h);
      NumberAgreesWithId(db, h.pact);
    }
    if HeadMatrixV1(db) == HeadMatrixV2(db) {
      forall h | h in Heads(db)
        ensures WithVerification(h.pact, HighestByNumber(db)) == WithVerification(h.pact, NewestById(db))
      {
        HeadIsLatestRow(db, h);
        SameRowsOfHead(db, h);
      }
    }
  }

  lemma SameRowsOfHead(db: Database, h: Head)
    requires HeadMatrixV1(db) == HeadMatrixV2(db) && h in IndexedHeads(db)
    ensures WithVerification(h.pact, HighestByNumber(db)) == WithVerification(h.pact, NewestById(db))
  {
    forall m
      ensures m in WithVerification(h.pact, HighestByNumber(db)) <==> m in WithVerification(h.pact, NewestById(db))
    {
      RowOfHead(IndexedHeads(db), HighestByNumber(db), h, m);
      RowOfHead(IndexedHeads(db), NewestById(db), h, m);
    }
  }

  lemma RowOfHead(heads: set<Head>, latest: set<VerificationRow>, h: Head, m: MatrixRow)
    requires h in heads
    ensures m in WithVerification(h.pact, latest) <==>
              m.pact == h.pact && HeadRow(m, h.tagName) in FlatHeadMatrix(heads, latest)
  {
    if m.pact == h.pact && HeadRow(m, h.tagName) in FlatHeadMatrix(heads, latest) {
      var g, n :| g in heads && n in WithVerification(g.pact, latest) && HeadRow(m, h.tagName) == HeadRow(n, g.tagName);
      assert n.pact == g.pact;
    }
  }
}
