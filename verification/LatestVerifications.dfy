// The newest verification of each pact version, of each consumer and provider,
// and of each consumer version tag: over every verification, and over the table
// latest_verification_id_for_pact_version_and_provider_version.
module LatestVerifications {
  import opened Basics
  import opened Sql
  import opened Schema
  import opened LatestPublications
  import opened TagHeads

  // The four columns 20180724 groups by.
  datatype GroupKey = GroupKey(consumerId: Num, pactVersionId: Id, providerId: Num, providerVersionId: Num)

  function GroupOf(v: Verification): GroupKey {
    GroupKey(v.consumerId, v.pactVersionId, v.providerId, v.providerVersionId)
  }

  ghost function Grouped(verifications: set<Verification>): set<(GroupKey, Num)> {
    set v | v in verifications :: (GroupOf(v), Some(v.id))
  }

  function InsertedRow(k: GroupKey, id: Id): LatestVerification
    requires k.consumerId.Some? && k.providerId.Some? && k.providerVersionId.Some?
  {
    LatestVerification(k.consumerId.value, k.pactVersionId, k.providerId.value, k.providerVersionId.value, id)
  }

  // The rows 20180724 inserts; every column of the table is NOT NULL.
  ghost function PopulatedVerifications(verifications: set<Verification>): set<LatestVerification> {
    var groups := GroupMax(Grouped(verifications));
    set k | k in groups && k.consumerId.Some? && k.providerId.Some? && k.providerVersionId.Some? && groups[k].Some?
      :: InsertedRow(k, groups[k].value)
  }

  ghost predicate VerificationIndexCurrent(db: Database) {
    db.lv == PopulatedVerifications(db.verifications)
  }

  // v is the newest verification of its pact version by its provider version.
  ghost predicate IsNewestByVersion(db: Database, v: Verification) {
    v in db.verifications && forall w | w in db.verifications && w.pactVersionId == v.pactVersionId
      && w.providerVersionId == v.providerVersionId :: w.id <= v.id
  }

  // v is the newest verification of its pact version.
  ghost predicate IsNewest(db: Database, v: Verification) {
    v in db.verifications && forall w | w in db.verifications && w.pactVersionId == v.pactVersionId :: w.id <= v.id
  }

  ghost predicate IndexedAs(x: LatestVerification, v: Verification) {
    && x.verificationId == v.id && x.pactVersionId == v.pactVersionId
      && Some(x.providerVersionId) == v.providerVersionId
    && Some(x.consumerId) == v.consumerId && Some(x.providerId) == v.providerId
  }

  // A verification of a pact version carries that pact version's ids.
  lemma SamePactVersionSameOwner(db: Database, v: Verification, w: Verification)
    requires ForeignKeys(db) && VerificationsOwned(db)
    requires v in db.verifications && w in db.verifications && v.pactVersionId == w.pactVersionId
    ensures v.consumerId == w.consumerId && v.providerId == w.providerId
    ensures v.consumerId.Some? && v.providerId.Some? && v.providerVersionId.Some?
  {
    assert VerificationRefers(db, v) && VerificationOwned(db, v) && VerificationOwned(db, w);
    var pv :| pv in db.pactVersions && pv.id == v.pactVersionId;
  }

  // The populated table holds exactly the newest verification of each pact
  // version by each provider version.
  lemma IndexHoldsNewest(db: Database, v: Verification)
    requires Declared(db) && VerificationsOwned(db) && VerificationIndexCurrent(db) && v in db.verifications
    ensures IsNewestByVersion(db, v)
       <==> (v.consumerId.Some? && v.providerId.Some? && v.providerVersionId.Some?
             && InsertedRow(GroupOf(v), v.id) in db.lv)
  {
    SamePactVersionSameOwner(db, v, v);
    var base := Grouped(db.verifications);
    var k := GroupOf(v);
    assert (k, Some(v.id)) in base;
    GroupMaxIs(base, k, Some(v.id));
    if IsNewestByVersion(db, v) {
      forall p | p in base && p.0 == k ensures NotAbove(p.1, Some(v.id)) {
        var w :| w in db.verifications && p == (GroupOf(w), Some(w.id));
      }
      assert InsertedRow(k, GroupMax(base)[k].value) in db.lv;
    }
    if InsertedRow(k, v.id) in db.lv {
      assert HasRow(GroupMax(base), k, Some(v.id));
      forall w | w in db.verifications && w.pactVersionId == v.pactVersionId
        && w.providerVersionId == v.providerVersionId
        ensures w.id <= v.id
      {
        SamePactVersionSameOwner(db, v, w);
        assert (k, Some(w.id)) in base;
      }
    }
  }

  lemma IndexedVerification(db: Database, x: LatestVerification) returns (v: Verification)
    requires Declared(db) && VerificationsOwned(db) && VerificationIndexCurrent(db) && x in db.lv
    ensures IsNewestByVersion(db, v) && IndexedAs(x, v)
  {
    var base := Grouped(db.verifications);
    var groups := GroupMax(base);
    var k :| k in groups && k.consumerId.Some? && k.providerId.Some? && k.providerVersionId.Some? && groups[k].Some?
      && x == InsertedRow(k, groups[k].value);
    GroupMaxIs(base, k, groups[k]);
    assert (k, groups[k]) in base;
    v :| v in db.verifications && (k, groups[k]) == (GroupOf(v), Some(v.id));
    assert InsertedRow(GroupOf(v), v.id) in db.lv;
    IndexHoldsNewest(db, v);
  }

  // The rows satisfy the table's own unique keys, although they were grouped by
  // four columns and the key has two.
  lemma PopulatedKeyUnique(db: Database, x: LatestVerification, y: LatestVerification)
    requires Declared(db) && VerificationsOwned(db) && VerificationIndexCurrent(db) && x in db.lv && y in db.lv
    ensures x.pactVersionId == y.pactVersionId && x.providerVersionId == y.providerVersionId ==> x == y
    ensures x.verificationId == y.verificationId ==> x == y
  {
    var v := IndexedVerification(db, x);
    var w := IndexedVerification(db, y);
    if x.pactVersionId == y.pactVersionId && x.providerVersionId == y.providerVersionId {
      assert v.id == w.id;
    }
  }

  lemma {:induction false} NewestExists(db: Database, v: Verification) returns (top: Verification)
    requires v in db.verifications
    ensures IsNewest(db, top) && top.pactVersionId == v.pactVersionId && v.id <= top.id
  {
    var others := set w | w in db.verifications && w.pactVersionId == v.pactVersionId;
    assert v in others;
    top := GreatestExists(others, (w: Verification) => w.id);
    assert forall w | w in db.verifications && w.pactVersionId == top.pactVersionId :: w in others;
  }

  // latest_verification_ids_for_pact_versions, over the index table
  ghost function IdsByPactVersion(lv: set<LatestVerification>): set<(Id, Num)> {
    set x | x in lv :: (x.pactVersionId, Some(x.verificationId))
  }

  ghost function LatestIdsForPactVersions(lv: set<LatestVerification>): map<Id, Num> {
    GroupMax(IdsByPactVersion(lv))
  }

  // and what it stands for, over every verification.
  ghost function AllIdsByPactVersion(verifications: set<Verification>): set<(Id, Num)> {
    set v | v in verifications :: (v.pactVersionId, Some(v.id))
  }

  lemma NewestIsIndexed(db: Database, v: Verification) returns (x: LatestVerification)
    requires Declared(db) && VerificationsOwned(db) && VerificationIndexCurrent(db) && IsNewest(db, v)
    ensures x in db.lv && IndexedAs(x, v)
  {
    IndexHoldsNewest(db, v);
    x := InsertedRow(GroupOf(v), v.id);
  }

  lemma LatestIdsForPactVersionsAgree(db: Database)
    requires Declared(db) && VerificationsOwned(db) && VerificationIndexCurrent(db)
    ensures LatestIdsForPactVersions(db.lv) == GroupMax(AllIdsByPactVersion(db.verifications))
  {
    forall p | p in AllIdsByPactVersion(db.verifications) ensures Matched(p, IdsByPactVersion(db.lv)) {
      var v :| v in db.verifications && p == (v.pactVersionId, Some(v.id));
      var top := NewestExists(db, v);
      var x := NewestIsIndexed(db, top);
      assert (x.pactVersionId, Some(x.verificationId)) in IdsByPactVersion(db.lv);
    }
    forall q | q in IdsByPactVersion(db.lv) ensures Matched(q, AllIdsByPactVersion(db.verifications)) {
      var x :| x in db.lv && q == (x.pactVersionId, Some(x.verificationId));
      var v := IndexedVerification(db, x);
      assert (v.pactVersionId, Some(v.id)) in AllIdsByPactVersion(db.verifications);
    }
    SameGroupMax(IdsByPactVersion(db.lv), AllIdsByPactVersion(db.verifications));
  }

  // The view over the index finds the newest verification of each pact version.
  lemma LatestIdIsNewest(db: Database, v: Verification)
    requires Declared(db) && VerificationsOwned(db) && VerificationIndexCurrent(db) && v in db.verifications
    ensures HasRow(LatestIdsForPactVersions(db.lv), v.pactVersionId, Some(v.id)) <==> IsNewest(db, v)
  {
    LatestIdsForPactVersionsAgree(db);
    GroupedIdIsNewest(db, v);
  }

  lemma GroupedIdIsNewest(db: Database, v: Verification)
    requires v in db.verifications
    ensures HasRow(GroupMax(AllIdsByPactVersion(db.verifications)), v.pactVersionId, Some(v.id)) <==> IsNewest(db, v)
  {
    var base := AllIdsByPactVersion(db.verifications);
    GroupMaxIs(base, v.pactVersionId, Some(v.id));
    assert (v.pactVersionId, Some(v.id)) in base;
    if HasRow(GroupMax(base), v.pactVersionId, Some(v.id)) {
      forall w | w in db.verifications && w.pactVersionId == v.pactVersionId ensures w.id <= v.id {
        assert (w.pactVersionId, Some(w.id)) in base;
      }
    }
  }

  // latest_verification_ids_for_consumer_and_provider, three definitions. The
  // ids V2 groups by may be NULL.
  datatype OwnerKey = OwnerKey(providerId: Num, consumerId: Num)

  ghost function OwnedIdsV1(db: Database): set<(OwnerKey, Num)> {
    set v, r, s | v in db.verifications && r in ByConsumerVersionsV3(db.lpp, AllPublications(db)) && s in db.versions
      && v.pactVersionId == r.pactVersionId && v.providerVersionId == Some(s.id)
      :: (OwnerKey(Some(s.pacticipantId), Some(r.consumerId)), Some(v.id))
  }

  ghost function OwnedIdsV2(db: Database): set<(OwnerKey, Num)> {
    set v | v in db.verifications :: (OwnerKey(v.providerId, v.consumerId), Some(v.id))
  }

  ghost function OwnedIdsV3(db: Database): set<(OwnerKey, Num)> {
    set x | x in db.lv :: (OwnerKey(Some(x.providerId), Some(x.consumerId)), Some(x.verificationId))
  }

  lemma LatestForConsumerAndProviderAgree(db: Database)
    requires Declared(db) && VerificationsOwned(db) && VerificationIndexCurrent(db)
    ensures GroupMax(OwnedIdsV2(db)) == GroupMax(OwnedIdsV3(db))
  {
    forall p | p in OwnedIdsV2(db) ensures Matched(p, OwnedIdsV3(db)) {
      var v :| v in db.verifications && p == (OwnerKey(v.providerId, v.consumerId), Some(v.id));
      var top := NewestExists(db, v);
      SamePactVersionSameOwner(db, v, top);
      var x := NewestIsIndexed(db, top);
      assert (OwnerKey(Some(x.providerId), Some(x.consumerId)), Some(x.verificationId)) in OwnedIdsV3(db);
    }
    forall q | q in OwnedIdsV3(db) ensures Matched(q, OwnedIdsV2(db)) {
      var x :| x in db.lv && q == (OwnerKey(Some(x.providerId), Some(x.consumerId)), Some(x.verificationId));
      var v := IndexedVerification(db, x);
      assert (OwnerKey(v.providerId, v.consumerId), Some(v.id)) in OwnedIdsV2(db);
    }
    SameGroupMax(OwnedIdsV2(db), OwnedIdsV3(db));
  }

  // Everything the rewritten views assume.
  ghost predicate ViewsSound(db: Database) {
    WellFormed(db) && IndexCurrent(db) && VerificationIndexCurrent(db)
  }

  // A verification of the pact version in an index row belongs to that row's
  // consumer and provider.
  lemma VerificationOfIndexRow(db: Database, l: LatestPublication, v: Verification) returns (s: Version)
    requires WellFormed(db) && IndexCurrent(db)
    requires l in db.lpp && v in db.verifications && v.pactVersionId == l.pactVersionId
    ensures v.consumerId == Some(l.consumerId) && v.providerId == Some(l.providerId)
    ensures s in db.versions && v.providerVersionId == Some(s.id) && s.pacticipantId == l.providerId
  {
    var pv := PactVersionOfIndexRow(db, l);
    assert VerificationRefers(db, v) && VerificationOwned(db, v);
    s :| s in db.versions && s.id == v.providerVersionId.value;
  }

  lemma PactVersionOfIndexRow(db: Database, l: LatestPublication) returns (pv: PactVersion)
    requires WellFormed(db) && IndexCurrent(db) && l in db.lpp
    ensures pv in db.pactVersions && pv.id == l.pactVersionId
    ensures pv.consumerId == l.consumerId && pv.providerId == l.providerId
  {
    var _, p, cv := IndexRowSource(db, l);
    assert PublicationRefers(db, p) && PublicationOwned(db, p);
    pv :| pv in db.pactVersions && pv.id == p.pactVersionId;
  }

  // The newest verified pact version of (provider, consumer) is still a latest revision.
  ghost predicate StillCurrent(db: Database, id: Num) {
    exists v, l :: v in db.verifications && l in db.lpp && Some(v.id) == id && v.pactVersionId == l.pactVersionId
  }

  // V1 looks only at pact versions that are still a latest revision: it has a
  // subset of V2's keys, never a larger id, and V2's id exactly when that
  // verification's pact version is still current.
  lemma LatestForConsumerAndProviderV1(db: Database, k: OwnerKey)
    requires ViewsSound(db)
    ensures k in GroupMax(OwnedIdsV1(db)) ==>
      k in GroupMax(OwnedIdsV2(db)) && NotAbove(GroupMax(OwnedIdsV1(db))[k], GroupMax(OwnedIdsV2(db))[k])
    ensures k in GroupMax(OwnedIdsV2(db)) ==>
      (HasRow(GroupMax(OwnedIdsV1(db)), k, GroupMax(OwnedIdsV2(db))[k])
       <==> StillCurrent(db, GroupMax(OwnedIdsV2(db))[k]))
  {
    OwnedIdsV1Shrinks(db);
    if k in GroupMax(OwnedIdsV1(db)) {
      var m := GroupMax(OwnedIdsV1(db))[k];
      GroupMaxIs(OwnedIdsV1(db), k, m);
      assert (k, m) in OwnedIdsV2(db) && (k, m).0 in Keys(OwnedIdsV2(db));
      GroupMaxIs(OwnedIdsV2(db), k, GroupMax(OwnedIdsV2(db))[k]);
      assert NotAbove((k, m).1, GroupMax(OwnedIdsV2(db))[k]);
    }
    if k in GroupMax(OwnedIdsV2(db)) {
      var m := GroupMax(OwnedIdsV2(db))[k];
      GroupMaxIs(OwnedIdsV2(db), k, m);
      GroupMaxIs(OwnedIdsV1(db), k, m);
      OwnedIdsV1Current(db, k, m);
    }
  }

  lemma OwnedIdsV1Shrinks(db: Database)
    requires ViewsSound(db)
    ensures OwnedIdsV1(db) <= OwnedIdsV2(db)
  {
    forall q | q in OwnedIdsV1(db) ensures q in OwnedIdsV2(db) {
      var v, l, s := OwnedIdsV1Source(db, q);
    }
  }

  lemma OwnedIdsV1Source(db: Database, q: (OwnerKey, Num)) returns (v: Verification, l: LatestPublication, s: Version)
    requires ViewsSound(db) && q in OwnedIdsV1(db)
    ensures v in db.verifications && l in db.lpp && v.pactVersionId == l.pactVersionId && q.1 == Some(v.id)
    ensures q == (OwnerKey(v.providerId, v.consumerId), Some(v.id))
  {
    var rows := AllPublications(db);
    var v', r, s' :| v' in db.verifications && r in ByConsumerVersionsV3(db.lpp, rows) && s' in db.versions
      && v'.pactVersionId == r.pactVersionId && v'.providerVersionId == Some(s'.id)
      && q == (OwnerKey(Some(s'.pacticipantId), Some(r.consumerId)), Some(v'.id));
    l := CurrentRowIndexed(db, r);
    v := v';
    s := VerificationOfIndexRow(db, l, v);
    assert s == s';
  }

  lemma CurrentRowIndexed(db: Database, r: PublicationRow) returns (l: LatestPublication)
    requires PrimaryKeys(db) && UniqueIndexes(db) && IndexCurrent(db)
    requires r in ByConsumerVersionsV3(db.lpp, AllPublications(db))
    ensures l in db.lpp && l == IndexRow(r)
  {
    AllPublicationsKeyed(db);
    l :| l in db.lpp && l.publicationId == r.id;
    var s :| s in AllPublications(db) && l == IndexRow(s);
  }

  lemma OwnedIdsV1Current(db: Database, k: OwnerKey, m: Num)
    requires ViewsSound(db) && (k, m) in OwnedIdsV2(db)
    requires forall p | p in OwnedIdsV2(db) && p.0 == k :: NotAbove(p.1, m)
    ensures ((k, m) in OwnedIdsV1(db) && forall p | p in OwnedIdsV1(db) && p.0 == k :: NotAbove(p.1, m))
       <==> StillCurrent(db, m)
  {
    OwnedIdsV1Shrinks(db);
    if (k, m) in OwnedIdsV1(db) {
      var v, l, s := OwnedIdsV1Source(db, (k, m));
    }
    if StillCurrent(db, m) {
      var v, l :| v in db.verifications && l in db.lpp && Some(v.id) == m && v.pactVersionId == l.pactVersionId;
      CurrentVerificationCounted(db, v, l);
      var w :| w in db.verifications && (k, m) == (OwnerKey(w.providerId, w.consumerId), Some(w.id));
      assert v == w;
    }
  }

  lemma CurrentVerificationCounted(db: Database, v: Verification, l: LatestPublication)
    requires ViewsSound(db)
    requires v in db.verifications && l in db.lpp && v.pactVersionId == l.pactVersionId
    ensures (OwnerKey(v.providerId, v.consumerId), Some(v.id)) in OwnedIdsV1(db)
  {
    var s := VerificationOfIndexRow(db, l, v);
    var r, _, _ := IndexRowSource(db, l);
    assert r in ByConsumerVersionsV3(db.lpp, AllPublications(db));
  }

  // latest_verification_ids_for_consumer_version_tags, five definitions: the four
  // of the DDL file, and the one 20180727 installed.
  ghost function TaggedIdsV1(db: Database): set<(TagKey, Num)> {
    set v, r, t, s | v in db.verifications && r in ByConsumerVersionsV1(AllPublications(db)) && t in db.tags
      && s in db.versions
      && v.pactVersionId == r.pactVersionId && r.consumerVersionId == t.versionId && v.providerVersionId == Some(s.id)
      :: (TagKey(s.pacticipantId, r.consumerId, t.name), Some(v.id))
  }

  ghost function TaggedIdsV2(db: Database): set<(TagKey, Num)> {
    set v, l, t, s | v in db.verifications && l in db.lpp && t in db.tags && s in db.versions
      && v.pactVersionId == l.pactVersionId && l.consumerVersionId == t.versionId && v.providerVersionId == Some(s.id)
      :: (TagKey(s.pacticipantId, l.consumerId, t.name), Some(v.id))
  }

  ghost function TaggedIdsV3(db: Database): set<(TagKey, Num)> {
    set v, l, t, s | v in db.verifications && l in db.lpp && t in db.tags && s in db.versions
      && v.pactVersionId == l.pactVersionId && l.consumerVersionId == t.versionId && v.providerVersionId == Some(s.id)
      && Some(v.id) in LatestIdsForPactVersions(db.lv).Values
      :: (TagKey(s.pacticipantId, l.consumerId, t.name), Some(v.id))
  }

  ghost function TaggedIdsV4(db: Database): set<(TagKey, Num)> {
    var latest := LatestIdsForPactVersions(db.lv);
    set k, l, t | k in latest && l in db.lpp && t in db.tags && k == l.pactVersionId
      && l.consumerVersionId == t.versionId
      :: (TagKey(l.providerId, l.consumerId, t.name), latest[k])
  }

  ghost function TaggedIds20180727(db: Database): set<(TagKey, Num)> {
    set x, l, t | x in db.lv && l in db.lpp && t in db.tags
      && x.pactVersionId == l.pactVersionId && l.consumerVersionId == t.versionId
      :: (TagKey(x.providerId, x.consumerId, t.name), Some(x.verificationId))
  }

  lemma LatestIdsForTagsAgree(db: Database)
    requires ViewsSound(db)
    ensures GroupMax(TaggedIdsV1(db)) == GroupMax(TaggedIdsV2(db))
    ensures GroupMax(TaggedIdsV2(db)) == GroupMax(TaggedIdsV3(db))
    ensures GroupMax(TaggedIdsV3(db)) == GroupMax(TaggedIdsV4(db))
    ensures GroupMax(TaggedIdsV4(db)) == GroupMax(TaggedIds20180727(db))
  {
    V1TagsAreV2(db);
    V4TagsWithinOthers(db);
    OthersWithinV2Tags(db);
    V2TagsMatchedByV4(db);
    Between(TaggedIdsV4(db), TaggedIdsV3(db), TaggedIdsV2(db));
    Between(TaggedIdsV4(db), TaggedIds20180727(db), TaggedIdsV2(db));
    Between(TaggedIdsV4(db), TaggedIdsV4(db), TaggedIdsV2(db));
  }

  // Any relation between two that have the same grouped maxima has them too.
  lemma Between<K>(small: set<(K, Num)>, r: set<(K, Num)>, large: set<(K, Num)>)
    requires small <= r <= large && Dominated(large, small)
    ensures GroupMax(r) == GroupMax(large)
  {
    forall p | p in r ensures Matched(p, large) { assert p in large && NotAbove(p.1, p.1); }
    forall p | p in large ensures Matched(p, r) {
      assert Matched(p, small);
      var q :| q in small && q.0 == p.0 && NotAbove(p.1, q.1);
    }
    SameGroupMax(r, large);
  }

  lemma V1TagsAreV2(db: Database)
    requires ViewsSound(db)
    ensures TaggedIdsV1(db) == TaggedIdsV2(db)
  {
    forall q | q in TaggedIdsV1(db) ensures q in TaggedIdsV2(db) { V1TagInV2(db, q); }
    forall q | q in TaggedIdsV2(db) ensures q in TaggedIdsV1(db) { V2TagInV1(db, q); }
  }

  lemma V1TagInV2(db: Database, q: (TagKey, Num))
    requires ViewsSound(db) && q in TaggedIdsV1(db)
    ensures q in TaggedIdsV2(db)
  {
    var rows := AllPublications(db);
    var v, r, t, s :| v in db.verifications && r in ByConsumerVersionsV1(rows) && t in db.tags && s in db.versions
      && v.pactVersionId == r.pactVersionId && r.consumerVersionId == t.versionId && v.providerVersionId == Some(s.id)
      && q == (TagKey(s.pacticipantId, r.consumerId, t.name), Some(v.id));
    assert r in ByConsumerVersionsV3(db.lpp, rows) by { ByConsumerVersionsAgree(db); }
    var l := CurrentRowIndexed(db, r);
  }

  lemma V2TagInV1(db: Database, q: (TagKey, Num))
    requires ViewsSound(db) && q in TaggedIdsV2(db)
    ensures q in TaggedIdsV1(db)
  {
    var rows := AllPublications(db);
    var v, l, t, s :| v in db.verifications && l in db.lpp && t in db.tags && s in db.versions
      && v.pactVersionId == l.pactVersionId && l.consumerVersionId == t.versionId && v.providerVersionId == Some(s.id)
      && q == (TagKey(s.pacticipantId, l.consumerId, t.name), Some(v.id));
    var r, _, _ := IndexRowSource(db, l);
    assert r in ByConsumerVersionsV1(rows) by {
      assert r in ByConsumerVersionsV3(db.lpp, rows);
      ByConsumerVersionsAgree(db);
    }
  }

  // An entry of V4 comes from a newest verification.
  lemma V4TagSource(db: Database, q: (TagKey, Num))
    returns (v: Verification, l: LatestPublication, t: Tag)
    requires ViewsSound(db) && q in TaggedIdsV4(db)
    ensures IsNewest(db, v) && l in db.lpp && t in db.tags
    ensures v.pactVersionId == l.pactVersionId && l.consumerVersionId == t.versionId
    ensures q == (TagKey(l.providerId, l.consumerId, t.name), Some(v.id))
  {
    var latest := LatestIdsForPactVersions(db.lv);
    var k, l', t' :| k in latest && l' in db.lpp && t' in db.tags && k == l'.pactVersionId
      && l'.consumerVersionId == t'.versionId && q == (TagKey(l'.providerId, l'.consumerId, t'.name), latest[k]);
    LatestIdsForPactVersionsAgree(db);
    GroupMaxIs(AllIdsByPactVersion(db.verifications), k, latest[k]);
    assert (k, latest[k]) in AllIdsByPactVersion(db.verifications);
    v :| v in db.verifications && (k, latest[k]) == (v.pactVersionId, Some(v.id));
    LatestIdIsNewest(db, v);
    l, t := l', t';
  }

  lemma V4TagsWithinOthers(db: Database)
    requires ViewsSound(db)
    ensures TaggedIdsV4(db) <= TaggedIdsV3(db) && TaggedIdsV4(db) <= TaggedIds20180727(db)
  {
    forall q | q in TaggedIdsV4(db) ensures q in TaggedIdsV3(db) && q in TaggedIds20180727(db) {
      var v, l, t := V4TagSource(db, q);
      var s := VerificationOfIndexRow(db, l, v);
      var x := NewestIsIndexed(db, v);
      LatestIdIsNewest(db, v);
      assert v.pactVersionId in LatestIdsForPactVersions(db.lv);
    }
  }

  lemma OthersWithinV2Tags(db: Database)
    requires ViewsSound(db)
    ensures TaggedIdsV3(db) <= TaggedIdsV2(db) && TaggedIds20180727(db) <= TaggedIdsV2(db)
  {
    forall q | q in TaggedIds20180727(db) ensures q in TaggedIdsV2(db) {
      var x, l, t :| x in db.lv && l in db.lpp && t in db.tags
        && x.pactVersionId == l.pactVersionId && l.consumerVersionId == t.versionId
        && q == (TagKey(x.providerId, x.consumerId, t.name), Some(x.verificationId));
      var v := IndexedVerification(db, x);
      var s := VerificationOfIndexRow(db, l, v);
    }
  }

  lemma V2TagsMatchedByV4(db: Database)
    requires ViewsSound(db)
    ensures Dominated(TaggedIdsV2(db), TaggedIdsV4(db))
  {
    forall q | q in TaggedIdsV2(db) ensures Matched(q, TaggedIdsV4(db)) {
      var v, l, t, s :| v in db.verifications && l in db.lpp && t in db.tags && s in db.versions
        && v.pactVersionId == l.pactVersionId && l.consumerVersionId == t.versionId && v.providerVersionId == Some(s.id)
        && q == (TagKey(s.pacticipantId, l.consumerId, t.name), Some(v.id));
      V2TagMatched(db, v, l, t, s);
    }
  }

  lemma V2TagMatched(db: Database, v: Verification, l: LatestPublication, t: Tag, s: Version)
    requires ViewsSound(db) && v in db.verifications && l in db.lpp && t in db.tags && s in db.versions
    requires v.pactVersionId == l.pactVersionId && l.consumerVersionId == t.versionId
    requires v.providerVersionId == Some(s.id)
    ensures Matched((TagKey(s.pacticipantId, l.consumerId, t.name), Some(v.id)), TaggedIdsV4(db))
  {
    var s' := VerificationOfIndexRow(db, l, v);
    assert s' == s;
    var top := NewestExists(db, v);
    LatestIdIsNewest(db, top);
    assert (TagKey(l.providerId, l.consumerId, t.name), Some(top.id)) in TaggedIdsV4(db);
  }
}
