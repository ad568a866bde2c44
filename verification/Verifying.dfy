// Recording verifications: how the index of latest verifications follows the
// verifications table, and when deleting verifications leaves it right.
module Verifying {
  import opened Basics
  import opened Sql
  import opened Schema
  import opened LatestVerifications

  datatype VerificationStore = VerificationStore(
    verifications: set<Verification>, lv: set<LatestVerification>, nextId: Id)

  ghost predicate SameGroup(v: Verification, w: Verification) {
    v.pactVersionId == w.pactVersionId && v.providerVersionId == w.providerVersionId
  }

  ghost predicate IsLast(verifications: set<Verification>, v: Verification) {
    v in verifications && forall w | w in verifications && SameGroup(v, w) :: w.id <= v.id
  }

  predicate Complete(v: Verification) {
    v.consumerId.Some? && v.providerId.Some? && v.providerVersionId.Some?
  }

  function Entry(v: Verification): LatestVerification
    requires Complete(v)
  {
    InsertedRow(GroupOf(v), v.id)
  }

  ghost function LastEntries(verifications: set<Verification>): set<LatestVerification> {
    set v | v in verifications && IsLast(verifications, v) && Complete(v) :: Entry(v)
  }

  ghost predicate Consistent(s: VerificationStore) {
    && (forall v, w | v in s.verifications && w in s.verifications && v.id == w.id :: v == w)
    && (forall v | v in s.verifications :: Complete(v) && v.id < s.nextId)
    && s.lv == LastEntries(s.verifications)
  }

  // What 20180724 inserts is the last entry of each group, and it is what the
  // views assume of the table.
  lemma PopulatedIsLast(db: Database)
    requires Declared(db) && VerificationsOwned(db)
    ensures PopulatedVerifications(db.verifications) == LastEntries(db.verifications)
  {
    var indexed := db.(lv := PopulatedVerifications(db.verifications));
    assert Declared(indexed) && VerificationsOwned(indexed) by { SameTables(db, indexed); }
    forall x ensures x in PopulatedVerifications(db.verifications) <==> x in LastEntries(db.verifications) {
      if x in indexed.lv {
        var v := IndexedVerification(indexed, x);
        assert IsLast(db.verifications, v) && x == Entry(v);
      }
      if x in LastEntries(db.verifications) {
        var v :| v in db.verifications && IsLast(db.verifications, v) && Complete(v) && x == Entry(v);
        assert IsNewestByVersion(indexed, v);
        IndexHoldsNewest(indexed, v);
      }
    }
  }

  // The hypotheses do not mention the index.
  lemma SameTables(db: Database, indexed: Database)
    requires indexed == db.(lv := indexed.lv) && Declared(db) && VerificationsOwned(db)
    ensures Declared(indexed) && VerificationsOwned(indexed)
  {
    forall v | v in indexed.versions ensures VersionRefers(indexed, v) { assert VersionRefers(db, v); }
    forall p | p in indexed.publications ensures PublicationRefers(indexed, p) { assert PublicationRefers(db, p); }
    forall v | v in indexed.verifications ensures VerificationRefers(indexed, v) && VerificationOwned(indexed, v) {
      assert VerificationRefers(db, v) && VerificationOwned(db, v);
    }
  }

  ghost predicate OfGroup(x: LatestVerification, v: Verification) {
    x.pactVersionId == v.pactVersionId && Some(x.providerVersionId) == v.providerVersionId
  }

  // A later verification than all those of its group.
  ghost predicate Follows(v: Verification, verifications: set<Verification>) {
    forall w | w in verifications && SameGroup(v, w) :: w.id < v.id
  }

  lemma LaterEntry(verifications: set<Verification>, v: Verification)
    requires Complete(v) && Follows(v, verifications)
    ensures (set x | x in LastEntries(verifications) && !OfGroup(x, v)) + {Entry(v)} == LastEntries(verifications + {v})
  {
    var more := verifications + {v};
    forall w ensures IsLast(more, w) <==> w == v || (IsLast(verifications, w) && !SameGroup(w, v)) {
      LaterLast(verifications, v, w);
    }
    forall x ensures x in LastEntries(more) <==> x == Entry(v) || (x in LastEntries(verifications) && !OfGroup(x, v)) {
      if x in LastEntries(verifications) && !OfGroup(x, v) {
        var w :| w in verifications && IsLast(verifications, w) && Complete(w) && x == Entry(w);
        assert IsLast(more, w);
      }
    }
  }

  lemma LaterLast(verifications: set<Verification>, v: Verification, w: Verification)
    requires Follows(v, verifications)
    ensures IsLast(verifications + {v}, w) <==> w == v || (IsLast(verifications, w) && !SameGroup(w, v))
  {
    if IsLast(verifications + {v}, w) && w != v {
      assert v in verifications + {v};
      assert forall u | u in verifications :: u in verifications + {v};
    }
  }

  // Saving a verification upserts the row of its pact version and provider version.
  ghost function WithVerification(s: VerificationStore, v: Verification): VerificationStore
    requires Complete(v)
  {
    VerificationStore(
      s.verifications + {v},
      (set x | x in s.lv && !OfGroup(x, v)) + {Entry(v)},
      s.nextId + 1)
  }

  lemma WithVerificationConsistent(s: VerificationStore, v: Verification)
    requires Consistent(s) && Complete(v) && v.id == s.nextId
    ensures Consistent(WithVerification(s, v))
  {
    LaterEntry(s.verifications, v);
  }

  ghost function WithoutVerifications(s: VerificationStore, ids: set<Id>): VerificationStore {
    s.(verifications := (set v | v in s.verifications && v.id !in ids),
       lv := (set x | x in s.lv && x.verificationId !in ids))
  }

  // Whenever the newest verification of a group goes, the whole group goes.
  ghost predicate TakesWholeGroups(s: VerificationStore, ids: set<Id>) {
    forall v, w | IsLast(s.verifications, v) && v.id in ids && w in s.verifications && SameGroup(v, w) :: w.id in ids
  }

  // Deleting one verification may strand the index, as the comment of 20180723
  // warns: the cascade is enough exactly when whole groups go.
  lemma DeletionIsSafe(s: VerificationStore, ids: set<Id>)
    requires Consistent(s)
    ensures Consistent(WithoutVerifications(s, ids)) <==> TakesWholeGroups(s, ids)
  {
    if TakesWholeGroups(s, ids) { WholeGroupsGo(s, ids); }
    if !TakesWholeGroups(s, ids) { PartOfGroupGoes(s, ids); }
  }

  lemma LastExists(verifications: set<Verification>, v: Verification) returns (last: Verification)
    requires v in verifications
    ensures IsLast(verifications, last) && SameGroup(last, v)
  {
    var group := set w | w in verifications && SameGroup(v, w);
    assert v in group;
    last := GreatestExists(group, (w: Verification) => w.id);
    assert forall w | w in verifications && SameGroup(last, w) :: w in group;
  }

  lemma WholeGroupsGo(s: VerificationStore, ids: set<Id>)
    requires Consistent(s) && TakesWholeGroups(s, ids)
    ensures Consistent(WithoutVerifications(s, ids))
  {
    var t := WithoutVerifications(s, ids);
    forall v ensures IsLast(t.verifications, v) <==> IsLast(s.verifications, v) && v.id !in ids {
      if IsLast(t.verifications, v) {
        var last := LastExists(s.verifications, v);
        assert last.id !in ids;
        assert last in t.verifications && last.id <= v.id <= last.id;
      }
    }
    forall x ensures x in t.lv <==> x in LastEntries(t.verifications) {
      if x in t.lv {
        var v :| v in s.verifications && IsLast(s.verifications, v) && x == Entry(v);
      }
    }
  }

  lemma PartOfGroupGoes(s: VerificationStore, ids: set<Id>)
    requires Consistent(s) && !TakesWholeGroups(s, ids)
    ensures !Consistent(WithoutVerifications(s, ids))
  {
    var t := WithoutVerifications(s, ids);
    var v, w :| IsLast(s.verifications, v) && v.id in ids && w in s.verifications && SameGroup(v, w) && w.id !in ids;
    var last := LastExists(t.verifications, w);
    forall u | IsLast(s.verifications, u) && SameGroup(u, last) ensures u == v {
      assert u.id <= v.id <= u.id;
    }
    assert Entry(last) in LastEntries(t.verifications) && Entry(last) !in t.lv;
  }

  // ---- runs ----

  datatype Operation =
    | Record(v: Verification)
    | DeleteByProviderVersion(versionId: Id)
    | DeleteBetween(consumerId: Id, providerId: Id)

  // The verifications of a pact version copy its consumer and its provider.
  ghost predicate OwnersCopied(verifications: set<Verification>) {
    forall v, w | v in verifications && w in verifications && v.pactVersionId == w.pactVersionId ::
      v.consumerId == w.consumerId && v.providerId == w.providerId
  }

  ghost predicate Enabled(s: VerificationStore, op: Operation) {
    match op
    case Record(v) => Complete(v) && v.id == s.nextId && OwnersCopied(s.verifications + {v})
    case _ => true
  }

  ghost function ByProviderVersion(s: VerificationStore, versionId: Id): set<Id> {
    set v | v in s.verifications && v.providerVersionId == Some(versionId) :: v.id
  }

  ghost function Between(s: VerificationStore, consumerId: Id, providerId: Id): set<Id> {
    set v | v in s.verifications && v.consumerId == Some(consumerId) && v.providerId == Some(providerId) :: v.id
  }

  ghost function Step(s: VerificationStore, op: Operation): VerificationStore
    requires Enabled(s, op)
  {
    match op
    case Record(v) => WithVerification(s, v)
    case DeleteByProviderVersion(versionId) => WithoutVerifications(s, ByProviderVersion(s, versionId))
    case DeleteBetween(consumerId, providerId) => WithoutVerifications(s, Between(s, consumerId, providerId))
  }

  // The other two deletions take whole groups.
  lemma GroupsOfVersion(s: VerificationStore, versionId: Id)
    requires Consistent(s)
    ensures TakesWholeGroups(s, ByProviderVersion(s, versionId))
    ensures forall v | v in s.verifications ::
              v.id in ByProviderVersion(s, versionId) <==> v.providerVersionId == Some(versionId)
  {
  }

  lemma GroupsBetween(s: VerificationStore, consumerId: Id, providerId: Id)
    requires Consistent(s) && OwnersCopied(s.verifications)
    ensures TakesWholeGroups(s, Between(s, consumerId, providerId))
    ensures forall v | v in s.verifications ::
              v.id in Between(s, consumerId, providerId)
              <==> v.consumerId == Some(consumerId) && v.providerId == Some(providerId)
  {
  }

  lemma StepConsistent(s: VerificationStore, op: Operation)
    requires Consistent(s) && OwnersCopied(s.verifications) && Enabled(s, op)
    ensures Consistent(Step(s, op)) && OwnersCopied(Step(s, op).verifications)
  {
    match op
    case Record(v) => WithVerificationConsistent(s, v);
    case DeleteByProviderVersion(versionId) =>
      GroupsOfVersion(s, versionId);
      DeletionIsSafe(s, ByProviderVersion(s, versionId));
    case DeleteBetween(consumerId, providerId) =>
      GroupsBetween(s, consumerId, providerId);
      DeletionIsSafe(s, Between(s, consumerId, providerId));
  }

  ghost predicate Runnable(s: VerificationStore, ops: seq<Operation>)
    decreases |ops|
  {
    ops == [] || (Enabled(s, ops[0]) && Runnable(Step(s, ops[0]), ops[1..]))
  }

  ghost function Run(s: VerificationStore, ops: seq<Operation>): VerificationStore
    requires Runnable(s, ops)
    decreases |ops|
  {
    if ops == [] then s else Run(Step(s, ops[0]), ops[1..])
  }

  // After any run of recording and deleting the index holds the last verification of
  // every pact version and provider version. Only deleting one verification alone can
  // break this.
  lemma {:induction false} RunConsistent(s: VerificationStore, ops: seq<Operation>)
    requires Consistent(s) && OwnersCopied(s.verifications) && Runnable(s, ops)
    ensures Consistent(Run(s, ops)) && OwnersCopied(Run(s, ops).verifications)
    decreases |ops|
  {
    if ops == [] {
    } else {
      StepConsistent(s, ops[0]);
      RunConsistent(Step(s, ops[0]), ops[1..]);
    }
  }
}
