// How often each row of the head matrix comes out of its joins and its UNION ALL.
module HeadMatrixRows {
  import opened Basics
  import opened Sql
  import opened Schema
  import opened LatestPublications
  import opened TagHeads
  import opened LatestVerifications
  import opened Matrix
  import opened HeadMatrix

  // The rows joined to a head: a publication's, its row of the index table and, for the
  // head of a tag, the tag's row of the head orders.
  datatype HeadJoin = HeadJoin(pact: PublicationJoin, index: LatestPublication, key: Option<TagKey>)

  ghost predicate Indexed(db: Database, j: PublicationJoin, l: LatestPublication) {
    l in db.lpp && l.publicationId == j.p.id
  }

  ghost predicate IsOverallHead(db: Database, r: PublicationRow) {
    && r.consumerVersionOrder.Some?
    && HasRow(LatestOrdersV2(db.lpp, db.versions), ConsumerProvider(r.consumerId, r.providerId), r.consumerVersionOrder)
  }

  ghost predicate IsTagHead(db: Database, r: PublicationRow, k: TagKey) {
    && k.consumerId == r.consumerId && k.providerId == r.providerId
    && r.consumerVersionOrder.Some? && HasRow(LatestTaggedOrdersV4(db.lpp, db.tags), k, r.consumerVersionOrder)
  }

  ghost function HeadJoins(db: Database): set<HeadJoin> {
    (set j, l | j in PublicationJoins(db) && l in db.lpp && Indexed(db, j, l) && IsOverallHead(db, RowOf(j))
       :: HeadJoin(j, l, None))
    + (set j, l, k | j in PublicationJoins(db) && l in db.lpp && k in LatestTaggedOrdersV4(db.lpp, db.tags)
         && Indexed(db, j, l) && IsTagHead(db, RowOf(j), k) :: HeadJoin(j, l, Some(k)))
  }

  ghost function HeadOf(d: HeadJoin): Head {
    match d.key
    case None => Head(RowOf(d.pact), None, Some(1))
    case Some(k) => Head(RowOf(d.pact), Some(k.tagName), None)
  }

  // The verification and the provider version that an outer join adds to a head.
  datatype NewestJoin = NewestJoin(verification: Verification, version: Version)

  ghost function NewestJoins(db: Database): set<NewestJoin> {
    set v, s | v in db.verifications && s in db.versions && v.providerVersionId == Some(s.id)
      && HasRow(LatestIdsForPactVersions(db.lv), v.pactVersionId, Some(v.id)) :: NewestJoin(v, s)
  }

  ghost function NewestRow(n: NewestJoin): VerificationRow {
    VerificationRow(n.verification.pactVersionId, ProviderVersionOf(n.version), OutcomeOf(n.verification))
  }

  ghost predicate HasNewest(db: Database, r: PublicationRow) {
    exists n :: n in NewestJoins(db) && n.verification.pactVersionId == r.pactVersionId
  }

  datatype RowJoin = RowJoin(head: HeadJoin, newest: Option<NewestJoin>)

  ghost function RowJoins(db: Database): set<RowJoin> {
    (set d, n | d in HeadJoins(db) && n in NewestJoins(db)
      && n.verification.pactVersionId == RowOf(d.pact).pactVersionId
       :: RowJoin(d, Some(n)))
    + (set d | d in HeadJoins(db) && !HasNewest(db, RowOf(d.pact)) :: RowJoin(d, None))
  }

  ghost function JoinedHeadRow(x: RowJoin): HeadRow {
    HeadRow(Beside(RowOf(x.head.pact), x.newest), HeadOf(x.head).tagName)
  }

  ghost function Beside(r: PublicationRow, newest: Option<NewestJoin>): MatrixRow {
    match newest
    case None => MatrixRow(r, None, None)
    case Some(n) => MatrixRow(r, Some(ProviderVersionOf(n.version)), Some(OutcomeOf(n.verification)))
  }

  ghost predicate IsOverall(x: HeadRow) { x.tagName.None? }

  ghost predicate IsTagged(x: HeadRow) { x.tagName.Some? }

  // UNION ALL of the rows of the overall heads and those of the tags' heads.
  ghost function HeadMatrixV2All(db: Database): multiset<HeadRow> {
    BagWhere(RowJoins(db), JoinedHeadRow, IsOverall) + BagWhere(RowJoins(db), JoinedHeadRow, IsTagged)
  }

  // Every row of the head matrix comes out once.
  lemma UnionAllIsHeadMatrix(db: Database)
    requires PrimaryKeys(db) && UniqueIndexes(db) && IndexCurrent(db)
    ensures HeadMatrixV2All(db) == multiset(HeadMatrixV2(db))
  {
    JoinsMakeHeadMatrix(db);
    BagWhereOnce(RowJoins(db), JoinedHeadRow, HeadMatrixV2(db), IsOverall);
    BagWhereOnce(RowJoins(db), JoinedHeadRow, HeadMatrixV2(db), IsTagged);
    BothParts(HeadMatrixV2(db), IsOverall, IsTagged, HeadMatrixV2(db));
  }

  lemma JoinsMakeHeadMatrix(db: Database)
    requires PrimaryKeys(db) && UniqueIndexes(db) && IndexCurrent(db)
    ensures MakesOnce(RowJoins(db), JoinedHeadRow, HeadMatrixV2(db))
  {
    forall x, y | x in RowJoins(db) && y in RowJoins(db) && JoinedHeadRow(x) == JoinedHeadRow(y) ensures x == y {
      RowJoinUnique(db, x, y);
    }
    forall r | r in HeadMatrixV2(db) ensures Made(RowJoins(db), JoinedHeadRow, r) {
      var x := HeadRowJoined(db, r);
    }
    forall x | x in RowJoins(db) ensures JoinedHeadRow(x) in HeadMatrixV2(db) {
      RowJoinInHeadMatrix(db, x);
    }
  }

  // ---- no two joins make the same row ----

  lemma HeadJoinIs(db: Database, d: HeadJoin)
    requires d in HeadJoins(db)
    ensures d.pact in PublicationJoins(db) && Joined(db, d.pact) && Indexed(db, d.pact, d.index)
    ensures match d.key
            case None => IsOverallHead(db, RowOf(d.pact))
            case Some(k) => k in LatestTaggedOrdersV4(db.lpp, db.tags) && IsTagHead(db, RowOf(d.pact), k)
  {
  }

  lemma HeadJoinUnique(db: Database, d: HeadJoin, e: HeadJoin)
    requires PrimaryKeys(db) && UniqueIndexes(db) && IndexCurrent(db) && d in HeadJoins(db) && e in HeadJoins(db)
    requires RowOf(d.pact) == RowOf(e.pact) && HeadOf(d).tagName == HeadOf(e).tagName
    ensures d == e
  {
    HeadJoinIs(db, d);
    HeadJoinIs(db, e);
    JoinedUnique(db, d.pact, e.pact);
    SamePublicationSameIndexRow(db, d.index, e.index);
  }

  lemma NewestJoinUnique(db: Database, m: NewestJoin, n: NewestJoin)
    requires PrimaryKeys(db) && m in NewestJoins(db) && n in NewestJoins(db)
    requires OutcomeOf(m.verification) == OutcomeOf(n.verification)
    requires ProviderVersionOf(m.version) == ProviderVersionOf(n.version)
    ensures m == n
  {
  }

  lemma RowJoinIs(db: Database, x: RowJoin)
    requires x in RowJoins(db)
    ensures x.head in HeadJoins(db)
    ensures match x.newest
            case None => !HasNewest(db, RowOf(x.head.pact))
            case Some(n) => n in NewestJoins(db) && n.verification.pactVersionId == RowOf(x.head.pact).pactVersionId
  {
  }

  lemma RowJoinUnique(db: Database, x: RowJoin, y: RowJoin)
    requires PrimaryKeys(db) && UniqueIndexes(db) && IndexCurrent(db)
    requires x in RowJoins(db) && y in RowJoins(db) && JoinedHeadRow(x) == JoinedHeadRow(y)
    ensures x == y
  {
    RowJoinIs(db, x);
    RowJoinIs(db, y);
    HeadJoinUnique(db, x.head, y.head);
    if x.newest.Some? { NewestJoinUnique(db, x.newest.value, y.newest.value); }
  }

  // ---- the joins make the rows of the head matrix ----

  lemma HeadJoined(db: Database, h: Head) returns (d: HeadJoin)
    requires h in IndexedHeads(db)
    ensures d in HeadJoins(db) && HeadOf(d) == h
  {
    var j := RowJoined(db, h.pact);
    var l :| l in db.lpp && l.publicationId == h.pact.id;
    if h.tagName.None? {
      d := HeadJoin(j, l, None);
    } else {
      var k := TagKey(h.pact.providerId, h.pact.consumerId, h.tagName.value);
      d := HeadJoin(j, l, Some(k));
    }
  }

  lemma JoinIsHead(db: Database, d: HeadJoin)
    requires d in HeadJoins(db)
    ensures HeadOf(d) in IndexedHeads(db)
  {
    HeadJoinIs(db, d);
    var r := RowOf(d.pact);
    assert r in AllPublications(db);
    assert r in ByConsumerVersionsV3(db.lpp, AllPublications(db)) by { assert d.index.publicationId == r.id; }
  }

  lemma NewestJoined(db: Database, x: VerificationRow) returns (n: NewestJoin)
    requires x in NewestById(db)
    ensures n in NewestJoins(db) && NewestRow(n) == x
  {
    var v, s :| v in db.verifications && s in db.versions && v.providerVersionId == Some(s.id)
      && HasRow(LatestIdsForPactVersions(db.lv), v.pactVersionId, Some(v.id))
      && x == VerificationRow(v.pactVersionId, ProviderVersionOf(s), OutcomeOf(v));
    n := NewestJoin(v, s);
  }

  lemma NoMatch(r: PublicationRow, latest: set<VerificationRow>, m: MatrixRow)
    requires m in WithVerification(r, latest)
    requires forall x | x in latest && x.pactVersionId == r.pactVersionId ::
               m != MatrixRow(r, Some(x.providerVersion), Some(x.outcome))
    ensures m == MatrixRow(r, None, None) && forall x | x in latest :: x.pactVersionId != r.pactVersionId
  {
    var matches := set x | x in latest && x.pactVersionId == r.pactVersionId
                     :: MatrixRow(r, Some(x.providerVersion), Some(x.outcome));
    assert matches == {};
    forall x | x in latest ensures x.pactVersionId != r.pactVersionId {
      assert x.pactVersionId == r.pactVersionId ==> MatrixRow(r, Some(x.providerVersion), Some(x.outcome)) in matches;
    }
  }

  // The outer join adds what the joins add.
  lemma BesideIs(db: Database, r: PublicationRow, m: MatrixRow) returns (newest: Option<NewestJoin>)
    requires m in WithVerification(r, NewestById(db))
    ensures m == Beside(r, newest)
    ensures match newest
            case None => !HasNewest(db, r)
            case Some(n) => n in NewestJoins(db) && n.verification.pactVersionId == r.pactVersionId
  {
    if x :| x in NewestById(db) && x.pactVersionId == r.pactVersionId
            && m == MatrixRow(r, Some(x.providerVersion), Some(x.outcome))
    {
      var n := NewestJoined(db, x);
      newest := Some(n);
    } else {
      newest := None;
      NoMatch(r, NewestById(db), m);
      forall n | n in NewestJoins(db) ensures n.verification.pactVersionId != r.pactVersionId {
        assert NewestRow(n) in NewestById(db);
      }
    }
  }

  lemma BesideHolds(db: Database, r: PublicationRow, newest: Option<NewestJoin>)
    requires match newest
             case None => !HasNewest(db, r)
             case Some(n) => n in NewestJoins(db) && n.verification.pactVersionId == r.pactVersionId
    ensures Beside(r, newest) in WithVerification(r, NewestById(db))
  {
    match newest
    case None =>
      forall x | x in NewestById(db) ensures x.pactVersionId != r.pactVersionId {
        var n := NewestJoined(db, x);
      }
    case Some(n) =>
      assert NewestRow(n) in NewestById(db);
      MatchHolds(r, NewestById(db), NewestRow(n), Beside(r, newest));
  }

  lemma HeadRowJoined(db: Database, r: HeadRow) returns (x: RowJoin)
    requires r in HeadMatrixV2(db)
    ensures x in RowJoins(db) && JoinedHeadRow(x) == r
  {
    var h, m :| h in IndexedHeads(db) && m in WithVerification(h.pact, NewestById(db)) && r == HeadRow(m, h.tagName);
    var d := HeadJoined(db, h);
    var newest := BesideIs(db, h.pact, m);
    x := RowJoin(d, newest);
    RowJoinMade(db, x);
  }

  lemma RowJoinMade(db: Database, x: RowJoin)
    requires x.head in HeadJoins(db)
    requires match x.newest
             case None => !HasNewest(db, RowOf(x.head.pact))
             case Some(n) => n in NewestJoins(db) && n.verification.pactVersionId == RowOf(x.head.pact).pactVersionId
    ensures x in RowJoins(db)
  {
  }

  lemma RowJoinInHeadMatrix(db: Database, x: RowJoin)
    requires x in RowJoins(db)
    ensures JoinedHeadRow(x) in HeadMatrixV2(db)
  {
    RowJoinIs(db, x);
    JoinIsHead(db, x.head);
    BesideHolds(db, RowOf(x.head.pact), x.newest);
    assert HeadOf(x.head).pact == RowOf(x.head.pact);
  }

  // ---- the stacked definition ----

  // Heads come from a UNION, and the rows of the latest matrix come out of its UNION ALL
  // once, so the stack joins two sets of rows.
  datatype StackJoin = StackJoin(row: MatrixRow, head: Head)

  ghost function StackJoins(db: Database): set<StackJoin> {
    set m, h | m in LatestMatrix(db) && h in Heads(db) && OnHead(m, h) :: StackJoin(m, h)
  }

  ghost function StackedRow(x: StackJoin): HeadRow { HeadRow(x.row, x.head.tagName) }

  ghost function StackedAll(db: Database): multiset<HeadRow> {
    BagWhere(StackJoins(db), StackedRow, (x: HeadRow) => NewestForProvider(db, x.row))
    + BagWhere(StackJoins(db), StackedRow, (x: HeadRow) => x.row.verification.None?)
  }

  // So UNION ALL is as good as the UNION it replaced.
  lemma UnionAllIsStacked(db: Database)
    requires BaseSound(db)
    ensures StackedAll(db) == multiset(StackedHeadMatrix(db))
  {
    StackMakesRows(db);
    BagWhereOnce(StackJoins(db), StackedRow, StackedRows(db), (x: HeadRow) => NewestForProvider(db, x.row));
    BagWhereOnce(StackJoins(db), StackedRow, StackedRows(db), (x: HeadRow) => x.row.verification.None?);
    StackedIs(db);
    BothParts(StackedRows(db), (x: HeadRow) => NewestForProvider(db, x.row), (x: HeadRow) => x.row.verification.None?,
              StackedHeadMatrix(db));
  }

  ghost function StackedRows(db: Database): set<HeadRow> {
    set x | x in StackJoins(db) :: StackedRow(x)
  }

  lemma StackMakesRows(db: Database)
    requires BaseSound(db)
    ensures MakesOnce(StackJoins(db), StackedRow, StackedRows(db))
  {
    forall x, y | x in StackJoins(db) && y in StackJoins(db) && StackedRow(x) == StackedRow(y) ensures x == y {
      StackJoinUnique(db, x, y);
    }
    assert forall r | r in StackedRows(db) :: Made(StackJoins(db), StackedRow, r);
  }

  lemma StackJoinUnique(db: Database, x: StackJoin, y: StackJoin)
    requires BaseSound(db) && x in StackJoins(db) && y in StackJoins(db) && StackedRow(x) == StackedRow(y)
    ensures x == y
  {
    LatestMatrixPact(db, x.row);
    OnHeadIsHead(db, x.row, x.head);
    OnHeadIsHead(db, y.row, y.head);
    HeadsDetermined(db, x.head, y.head);
  }

  lemma StackedIs(db: Database)
    ensures forall r :: r in StackedHeadMatrix(db)
                   <==> r in StackedRows(db) && (NewestForProvider(db, r.row) || r.row.verification.None?)
  {
    forall r
      ensures r in StackedHeadMatrix(db)
         <==> r in StackedRows(db) && (NewestForProvider(db, r.row) || r.row.verification.None?)
    {
      RowIsStacked(db, r);
    }
  }

  lemma RowIsStacked(db: Database, r: HeadRow)
    ensures r in StackedHeadMatrix(db) <==>
              r in StackedRows(db) && (NewestForProvider(db, r.row) || r.row.verification.None?)
  {
    if r in StackedRows(db) {
      var x :| x in StackJoins(db) && StackedRow(x) == r;
    }
    if r in StackedHeadMatrix(db) {
      var m, h :| m in LatestMatrix(db) && h in Heads(db) && OnHead(m, h) && r == HeadRow(m, h.tagName);
      assert StackJoin(m, h) in StackJoins(db) && StackedRow(StackJoin(m, h)) == r;
    }
  }
}
