// The repository that writes verifications and their index, and the migration
// that first filled the index.
module VerificationRepository {
  import opened Basics
  import opened Sql
  import opened Schema
  import opened LatestVerifications
  import opened Verifying
  import opened LatestPublications
  import opened Matrix
  import PactRepository
  import Publishing

  class Repository {
    var verifications: set<Verification>
    var lv: set<LatestVerification>
    var nextId: Id

    ghost function Store(): VerificationStore
      reads this
    {
      VerificationStore(verifications, lv, nextId)
    }

    constructor (verifications: set<Verification>, nextId: Id)
      ensures Store() == VerificationStore(verifications, {}, nextId)
    {
      this.verifications, this.lv, this.nextId := verifications, {}, nextId;
    }

    // 20180724: the highest id of each group of verifications becomes a row.
    method Populate()
      requires forall v | v in verifications :: Complete(v)
      modifies this`lv
      ensures lv == old(lv) + PopulatedVerifications(verifications)
    {
      var latest: map<GroupKey, Id> := map[];
      var remaining := verifications;
      while remaining != {}
        invariant remaining <= verifications
        invariant forall k | k in latest ::
                    (exists v :: v in verifications - remaining && GroupOf(v) == k && v.id == latest[k])
        invariant forall v | v in verifications - remaining :: GroupOf(v) in latest && v.id <= latest[GroupOf(v)]
        decreases remaining
      {
        var v :| v in remaining;
        var k := GroupOf(v);
        if k !in latest || latest[k] < v.id {
          latest := latest[k := v.id];
        }
        remaining := remaining - {v};
      }
      LatestIsGrouped(verifications, latest);
      lv := lv + set k | k in latest && k.consumerId.Some? && k.providerId.Some? && k.providerVersionId.Some?
              :: InsertedRow(k, latest[k]);
    }

    // Saving a verification by a version that is there, and upserting its index row.
    method Save(
      pactVersion: PactVersion, providerVersion: Version, number: int, success: bool, executedAt: int,
      buildUrl: Option<string>)
      returns (v: Verification)
      requires Consistent(Store()) && providerVersion.pacticipantId == pactVersion.providerId
      modifies this
      ensures Complete(v) && v.id == old(nextId) && v.pactVersionId == pactVersion.id
      ensures v.providerVersionId == Some(providerVersion.id)
      ensures v.consumerId == Some(pactVersion.consumerId) && v.providerId == Some(pactVersion.providerId)
      ensures v.number == Some(number) && v.success == success
      ensures v.executedAt == executedAt && v.buildUrl == buildUrl
      ensures forall db, m | BaseSound(db) && db.verifications == verifications && providerVersion in db.versions
                             && m in LatestMatrix(db) && m.pact.pactVersionId == pactVersion.id
                             && m.providerVersion.Some? && m.providerVersion.value.id == providerVersion.id ::
                m.verification.Some? && m.verification.value.success == success
      ensures Store() == WithVerification(old(Store()), v) && Consistent(Store())
      ensures verifications == old(verifications) + {v}
      ensures IsLast(verifications, v)
      ensures OwnersCopied(verifications) <==>
                OwnersCopied(old(verifications)) && OwnedBy(old(verifications), pactVersion)
    {
      ghost var s := Store();
      v := Verification(nextId, Some(number), success, pactVersion.id, Some(providerVersion.id),
                        Some(pactVersion.consumerId), Some(pactVersion.providerId), executedAt, buildUrl);
      nextId := nextId + 1;
      verifications := verifications + {v};
      UpdateLatestVerificationId(v, providerVersion);
      WithVerificationConsistent(s, v);
      OwnersStayCopied(s.verifications, pactVersion, v);
      RecordedIsShown(verifications, v, providerVersion);
    }

    // create: the provider's version of that number is found or created first.
    method Create(
      pacts: PactRepository.Repository, pactVersion: PactVersion, providerVersionNumber: string,
      after: (string, string) -> bool, number: int, success: bool, executedAt: int, buildUrl: Option<string>)
      returns (v: Verification, providerVersion: Version, ghost ops: seq<Publishing.Operation>)
      requires Consistent(Store())
      requires pacts.Ready() && Publishing.Registered(pacts.pacticipants, pactVersion.providerId)
      modifies this, pacts`versions, pacts`nextVersionId
      ensures pacts.Ready() && providerVersion in pacts.versions && providerVersion.number == providerVersionNumber
      ensures providerVersion.pacticipantId == pactVersion.providerId
      ensures PactRepository.AddsNumber(old(pacts.Store()), pactVersion.providerId, providerVersionNumber, after, ops)
      ensures Publishing.Runnable(old(pacts.Store()), ops)
      ensures pacts.Store() == Publishing.Run(old(pacts.Store()), ops)
      ensures Complete(v) && v.id == old(nextId) && v.pactVersionId == pactVersion.id
      ensures v.providerVersionId == Some(providerVersion.id)
      ensures v.consumerId == Some(pactVersion.consumerId) && v.providerId == Some(pactVersion.providerId)
      ensures v.number == Some(number) && v.success == success
      ensures v.executedAt == executedAt && v.buildUrl == buildUrl
      ensures forall db, m | BaseSound(db) && db.verifications == verifications && providerVersion in db.versions
                             && m in LatestMatrix(db) && m.pact.pactVersionId == pactVersion.id
                             && m.providerVersion.Some? && m.providerVersion.value.id == providerVersion.id ::
                m.verification.Some? && m.verification.value.success == success
      ensures Store() == WithVerification(old(Store()), v) && Consistent(Store())
      ensures verifications == old(verifications) + {v}
      ensures IsLast(verifications, v)
      ensures OwnersCopied(verifications) <==>
                OwnersCopied(old(verifications)) && OwnedBy(old(verifications), pactVersion)
    {
      providerVersion, ops := pacts.FindOrCreateVersion(pactVersion.providerId, providerVersionNumber, after);
      v := Save(pactVersion, providerVersion, number, success, executedAt, buildUrl);
    }

    // Upsert the index row of the verification's pact version and provider version.
    method UpdateLatestVerificationId(v: Verification, providerVersion: Version)
      requires v.consumerId.Some? && v.providerVersionId == Some(providerVersion.id)
      modifies this`lv
      ensures exists x :: x in lv && OfGroup(x, v)
      ensures forall x | x in lv && OfGroup(x, v) :: x.verificationId == v.id
      ensures forall x | x in lv && OfGroup(x, v) ::
                Some(x.consumerId) == v.consumerId && x.providerId == providerVersion.pacticipantId
      ensures forall x | !OfGroup(x, v) :: x in lv <==> x in old(lv)
      ensures (v.providerId == Some(providerVersion.pacticipantId) && v in verifications
        && Follows(v, verifications - {v})
               && old(lv) == LastEntries(verifications - {v})) ==> lv == LastEntries(verifications)
    {
      ghost var before := lv;
      lv := (set x | x in lv && !(x.pactVersionId == v.pactVersionId && x.providerVersionId == providerVersion.id))
            + {LatestVerification(v.consumerId.value, v.pactVersionId, providerVersion.pacticipantId,
              providerVersion.id, v.id)};
      assert LatestVerification(v.consumerId.value, v.pactVersionId, providerVersion.pacticipantId,
        providerVersion.id, v.id) in lv;
      if v.providerId == Some(providerVersion.pacticipantId) && v in verifications && Follows(v, verifications - {v})
         && before == LastEntries(verifications - {v})
      {
        LaterEntry(verifications - {v}, v);
        assert verifications - {v} + {v} == verifications;
      }
    }

    // delete from verifications where id in ids; index rows cascade.
    method Delete(ids: set<Id>)
      requires Consistent(Store())
      modifies this`verifications, this`lv
      ensures Store() == WithoutVerifications(old(Store()), ids)
      ensures verifications == set v | v in old(verifications) && v.id !in ids
      ensures lv == set x | x in old(lv) && x.verificationId !in ids
      ensures Consistent(Store()) <==> TakesWholeGroups(old(Store()), ids)
    {
      ghost var s := Store();
      DeletionIsSafe(s, ids);
      verifications := set v | v in verifications && v.id !in ids;
      lv := set x | x in lv && x.verificationId !in ids;
    }

    // Deleting the verifications by a version of the provider.
    method DeleteByProviderVersion(versionId: Id)
      requires Consistent(Store())
      modifies this`verifications, this`lv
      ensures verifications == set v | v in old(verifications) && v.providerVersionId != Some(versionId)
      ensures Consistent(Store())
    {
      ghost var s := Store();
      var ids := set v | v in verifications && v.providerVersionId == Some(versionId) :: v.id;
      GroupsOfVersion(s, versionId);
      Delete(ids);
    }

    // Deleting all verifications between two pacticipants.
    method DeleteAllBetween(consumerId: Id, providerId: Id)
      requires Consistent(Store()) && OwnersCopied(verifications)
      modifies this`verifications, this`lv
      ensures verifications ==
              set v | v in old(verifications) && !(v.consumerId == Some(consumerId) && v.providerId == Some(providerId))
      ensures Consistent(Store()) && OwnersCopied(verifications)
    {
      ghost var s := Store();
      var ids := set v | v in verifications && v.consumerId == Some(consumerId)
        && v.providerId == Some(providerId) :: v.id;
      GroupsBetween(s, consumerId, providerId);
      Delete(ids);
    }
  }

  // The verifications of a pact version that are there already have its owners.
  ghost predicate OwnedBy(verifications: set<Verification>, pactVersion: PactVersion) {
    forall w | w in verifications && w.pactVersionId == pactVersion.id ::
      w.consumerId == Some(pactVersion.consumerId) && w.providerId == Some(pactVersion.providerId)
  }

  lemma OwnersStayCopied(verifications: set<Verification>, pactVersion: PactVersion, v: Verification)
    requires v.pactVersionId == pactVersion.id
    requires v.consumerId == Some(pactVersion.consumerId) && v.providerId == Some(pactVersion.providerId)
    ensures OwnersCopied(verifications + {v}) <==> OwnersCopied(verifications) && OwnedBy(verifications, pactVersion)
  {
    var all := verifications + {v};
    if OwnersCopied(all) {
      assert OwnersCopied(verifications);
      forall w | w in verifications && w.pactVersionId == pactVersion.id
        ensures w.consumerId == v.consumerId && w.providerId == v.providerId
      {
        assert w in all && v in all;
      }
    }
  }

  // What saving is for: the latest matrix shows the last verification of a pact version
  // by a provider version, as it was recorded, beside each latest revision that has that
  // pact version, and no other verification by that provider version.
  lemma LatestMatrixShows(db: Database, v: Verification, s: Version, r: PublicationRow)
    requires BaseSound(db) && IsLast(db.verifications, v)
    requires s in db.versions && v.providerVersionId == Some(s.id)
    requires r in LatestRows(db) && r.pactVersionId == v.pactVersionId
    ensures exists m :: m in LatestMatrix(db) && m.pact == r && m.providerVersion.Some?
                        && m.providerVersion.value.id == s.id
    ensures forall m | m in LatestMatrix(db) && m.pact == r && m.providerVersion.Some?
                       && m.providerVersion.value.id == s.id ::
              && m.providerVersion.value.number == s.number && m.providerVersion.value.order == s.order
              && m.verification.Some? && m.verification.value.id == v.id
              && m.verification.value.success == v.success && m.verification.value.number == v.number
              && m.verification.value.executedAt == v.executedAt && m.verification.value.buildUrl == v.buildUrl
  {
    assert IsNewestByVersion(db, v);
    InLatestMatrix(db, r, v, s);
    var shown := OneRowPerVerifiedPair(db, r, v);
    forall m | m in LatestMatrix(db) && m.pact == r && m.providerVersion.Some? && m.providerVersion.value.id == s.id
      ensures m == VerifiedRow(r, v, s)
    {
      assert PairOf(m) == PairOf(VerifiedRow(r, v, s)) == VersionPair(r.consumerVersionId, v.providerVersionId);
    }
  }

  lemma RecordedIsShown(verifications: set<Verification>, v: Verification, s: Version)
    requires IsLast(verifications, v) && v.providerVersionId == Some(s.id)
    ensures forall db, m | BaseSound(db) && db.verifications == verifications && s in db.versions
                           && m in LatestMatrix(db) && m.pact.pactVersionId == v.pactVersionId
                           && m.providerVersion.Some? && m.providerVersion.value.id == s.id ::
              m.verification.Some? && m.verification.value.success == v.success
  {
    forall db, m | BaseSound(db) && db.verifications == verifications && s in db.versions
                   && m in LatestMatrix(db) && m.pact.pactVersionId == v.pactVersionId
                   && m.providerVersion.Some? && m.providerVersion.value.id == s.id
      ensures m.verification.Some? && m.verification.value.success == v.success
    {
      MatrixRowSource(db, m);
      LatestMatrixShows(db, v, s, m.pact);
    }
  }

  // The loop's map is the grouped maximum.
  lemma LatestIsGrouped(verifications: set<Verification>, latest: map<GroupKey, Id>)
    requires forall v | v in verifications :: Complete(v)
    requires forall k | k in latest :: (exists v :: v in verifications && GroupOf(v) == k && v.id == latest[k])
    requires forall v | v in verifications :: GroupOf(v) in latest && v.id <= latest[GroupOf(v)]
    ensures (set k | k in latest && k.consumerId.Some? && k.providerId.Some? && k.providerVersionId.Some?
               :: InsertedRow(k, latest[k])) == PopulatedVerifications(verifications)
  {
    var base := Grouped(verifications);
    var groups := GroupMax(base);
    forall k | k in latest ensures HasRow(groups, k, Some(latest[k])) {
      var v :| v in verifications && GroupOf(v) == k && v.id == latest[k];
      assert (k, Some(v.id)) in base;
      forall p | p in base && p.0 == k ensures NotAbove(p.1, Some(latest[k])) {
        var w :| w in verifications && p == (GroupOf(w), Some(w.id));
      }
      GroupMaxIs(base, k, Some(latest[k]));
    }
    forall k | k in groups ensures k in latest {
      var p :| p in base && p.0 == k;
      var w :| w in verifications && p == (GroupOf(w), Some(w.id));
    }
  }
}
