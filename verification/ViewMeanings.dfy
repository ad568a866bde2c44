// What the views show, said of the columns of the tables alone.
module ViewMeanings {
  import opened Basics
  import opened Sql
  import opened Schema
  import opened LatestPublications
  import opened TagHeads
  import opened LatestVerifications
  import opened Matrix
  import opened HeadMatrix

  // all_pact_publications has a row for a publication with its version, pacticipants
  // and content, carrying their columns,
  lemma PublicationListed(db: Database, p: Publication, cv: Version, c: Pacticipant, pr: Pacticipant, pv: PactVersion)
    requires p in db.publications && cv in db.versions && c in db.pacticipants
    requires pr in db.pacticipants && pv in db.pactVersions
    requires cv.id == p.consumerVersionId && c.id == cv.pacticipantId
    requires pr.id == p.providerId && pv.id == p.pactVersionId
    ensures PublicationRow(p.id, c.id, c.name, cv.id, cv.number, cv.order, pr.id, pr.name, p.revision, pv.id, pv.sha,
                           p.createdAt) in AllPublications(db)
  {
    assert Denormalise(p, cv, c, pr, pv) in AllPublications(db);
  }

  // and no other row.
  lemma PublicationColumns(db: Database, r: PublicationRow)
    returns (p: Publication, cv: Version, c: Pacticipant, pr: Pacticipant, pv: PactVersion)
    requires r in AllPublications(db)
    ensures p in db.publications && cv in db.versions && c in db.pacticipants
    ensures pr in db.pacticipants && pv in db.pactVersions
    ensures cv.id == p.consumerVersionId && c.id == cv.pacticipantId
    ensures pr.id == p.providerId && pv.id == p.pactVersionId
    ensures r == PublicationRow(p.id, c.id, c.name, cv.id, cv.number, cv.order, pr.id, pr.name, p.revision, pv.id,
                                pv.sha, p.createdAt)
  {
    var j := RowJoined(db, r);
    p, cv, c, pr, pv := j.p, j.cv, j.c, j.pr, j.pv;
  }

  // The pact of the newest consumer version: a highest revision, and no version of its
  // consumer that has a pact with its provider comes after its version.
  lemma OverallHeadIs(db: Database, r: PublicationRow)
    requires PrimaryKeys(db) && UniqueIndexes(db)
    ensures Head(r, None, Some(1)) in Heads(db) <==>
              && r in AllPublications(db) && r.consumerVersionOrder.Some?
              && (forall q | q in AllPublications(db) && q.consumerVersionId == r.consumerVersionId
                             && q.providerId == r.providerId :: q.revision <= r.revision)
              && (forall q | q in AllPublications(db) && q.consumerId == r.consumerId && q.providerId == r.providerId
                             && q.consumerVersionOrder.Some? ::
                    q.consumerVersionOrder.value <= r.consumerVersionOrder.value)
  {
    OverallHeadIsNewest(db, r);
    if r in AllPublications(db) && r.consumerVersionOrder.Some? {
      AllPublicationsKeyed(db);
      LatestRevisionIsHighest(AllPublications(db), r);
      NewestOrderIs(AllPublications(db), r);
    }
  }

  lemma OverallHeadIsNewest(db: Database, r: PublicationRow)
    ensures Head(r, None, Some(1)) in Heads(db) <==>
              && r in AllPublications(db) && IsLatestRevision(AllPublications(db), r)
              && HasRow(LatestOrdersV1(AllPublications(db)), ConsumerProvider(r.consumerId, r.providerId),
                        r.consumerVersionOrder)
  {
  }

  lemma NewestOrderIs(rows: set<PublicationRow>, r: PublicationRow)
    requires r in rows && r.consumerVersionOrder.Some?
    ensures HasRow(LatestOrdersV1(rows), ConsumerProvider(r.consumerId, r.providerId), r.consumerVersionOrder) <==>
              forall q | q in rows && q.consumerId == r.consumerId && q.providerId == r.providerId
                         && q.consumerVersionOrder.Some? ::
                q.consumerVersionOrder.value <= r.consumerVersionOrder.value
  {
    var base, key := OrdersOfRows(rows), ConsumerProvider(r.consumerId, r.providerId);
    GroupMaxIs(base, key, r.consumerVersionOrder);
    assert (key, r.consumerVersionOrder) in base;
    forall q | q in rows && q.consumerId == r.consumerId && q.providerId == r.providerId
      ensures (key, q.consumerVersionOrder) in base
    {
    }
    if HasRow(LatestOrdersV1(rows), key, r.consumerVersionOrder) {
      forall q | q in rows && q.consumerId == r.consumerId && q.providerId == r.providerId
                 && q.consumerVersionOrder.Some?
        ensures q.consumerVersionOrder.value <= r.consumerVersionOrder.value
      {
        assert NotAbove((key, q.consumerVersionOrder).1, r.consumerVersionOrder);
      }
    }
  }

  // The pact of the newest consumer version with a tag: a highest revision whose version
  // bears the tag, and no tagged version of its consumer that has a pact with its provider
  // comes after its version.
  lemma TagHeadIs(db: Database, r: PublicationRow, name: string)
    requires PrimaryKeys(db) && UniqueIndexes(db)
    ensures Head(r, Some(name), None) in Heads(db) <==>
              && r in AllPublications(db) && r.consumerVersionOrder.Some?
              && (forall q | q in AllPublications(db) && q.consumerVersionId == r.consumerVersionId
                             && q.providerId == r.providerId :: q.revision <= r.revision)
              && (exists t :: t in db.tags && t.versionId == r.consumerVersionId && t.name == name)
              && (forall q, t | q in AllPublications(db) && t in db.tags && t.versionId == q.consumerVersionId
                                && t.name == name && q.consumerId == r.consumerId && q.providerId == r.providerId
                                && q.consumerVersionOrder.Some? ::
                    q.consumerVersionOrder.value <= r.consumerVersionOrder.value)
  {
    AllPublicationsKeyed(db);
    TagHeadIsNewest(db, r, name);
    if r in AllPublications(db) && r.consumerVersionOrder.Some? {
      LatestRevisionIsHighest(AllPublications(db), r);
      if r in LatestRows(db) { NewestTaggedOrderIs(db, r, name); }
    }
  }

  lemma TagHeadIsNewest(db: Database, r: PublicationRow, name: string)
    ensures var orders := LatestTaggedOrdersV1(LatestRows(db), db.tags);
            Head(r, Some(name), None) in Heads(db) <==>
              && r in LatestRows(db) && r.consumerVersionOrder.Some?
              && HasRow(orders, TagKey(r.providerId, r.consumerId, name), r.consumerVersionOrder)
  {
    var orders, k := LatestTaggedOrdersV1(LatestRows(db), db.tags), TagKey(r.providerId, r.consumerId, name);
    if r in LatestRows(db) && r.consumerVersionOrder.Some? && HasRow(orders, k, r.consumerVersionOrder) {
      assert Head(r, Some(k.tagName), None) in TagHeadRows(LatestRows(db), orders);
    }
  }

  lemma NewestTaggedOrderIs(db: Database, r: PublicationRow, name: string)
    requires Keyed(AllPublications(db)) && r in LatestRows(db) && r.consumerVersionOrder.Some?
    ensures HasRow(LatestTaggedOrdersV1(LatestRows(db), db.tags), TagKey(r.providerId, r.consumerId, name),
                   r.consumerVersionOrder) <==>
              && (exists t :: t in db.tags && t.versionId == r.consumerVersionId && t.name == name)
              && (forall q, t | q in AllPublications(db) && t in db.tags && t.versionId == q.consumerVersionId
                                && t.name == name && q.consumerId == r.consumerId && q.providerId == r.providerId
                                && q.consumerVersionOrder.Some? ::
                    q.consumerVersionOrder.value <= r.consumerVersionOrder.value)
  {
    var base, k := TaggedOrdersV1(LatestRows(db), db.tags), TagKey(r.providerId, r.consumerId, name);
    GroupMaxIs(base, k, r.consumerVersionOrder);
    if HasRow(GroupMax(base), k, r.consumerVersionOrder) {
      TaggedOrderBears(db, r, name);
      forall q, t | q in AllPublications(db) && t in db.tags && t.versionId == q.consumerVersionId
                    && t.name == name && q.consumerId == r.consumerId && q.providerId == r.providerId
                    && q.consumerVersionOrder.Some?
        ensures q.consumerVersionOrder.value <= r.consumerVersionOrder.value
      {
        TaggedOrderBounds(db, r, q, t);
      }
    }
    if t :| t in db.tags && t.versionId == r.consumerVersionId && t.name == name {
      assert (k, r.consumerVersionOrder) in base;
      if forall q, t | q in AllPublications(db) && t in db.tags && t.versionId == q.consumerVersionId
                       && t.name == name && q.consumerId == r.consumerId && q.providerId == r.providerId
                       && q.consumerVersionOrder.Some? ::
           q.consumerVersionOrder.value <= r.consumerVersionOrder.value
      {
        forall p | p in base && p.0 == k ensures NotAbove(p.1, r.consumerVersionOrder) {
          TaggedOrderBelow(db, r, name, p);
        }
      }
    }
  }

  lemma TaggedOrderBelow(db: Database, r: PublicationRow, name: string, p: (TagKey, Num))
    requires r.consumerVersionOrder.Some? && p in TaggedOrdersV1(LatestRows(db), db.tags)
    requires p.0 == TagKey(r.providerId, r.consumerId, name)
    requires forall q, t | q in AllPublications(db) && t in db.tags && t.versionId == q.consumerVersionId
                           && t.name == name && q.consumerId == r.consumerId && q.providerId == r.providerId
                           && q.consumerVersionOrder.Some? ::
               q.consumerVersionOrder.value <= r.consumerVersionOrder.value
    ensures NotAbove(p.1, r.consumerVersionOrder)
  {
    var q, t :| q in LatestRows(db) && t in db.tags && t.versionId == q.consumerVersionId
      && p == (TagKey(q.providerId, q.consumerId, t.name), q.consumerVersionOrder);
    assert q in AllPublications(db);
  }

  lemma TaggedOrderBounds(db: Database, r: PublicationRow, q: PublicationRow, t: Tag)
    requires Keyed(AllPublications(db)) && r.consumerVersionOrder.Some? && q.consumerVersionOrder.Some?
    requires HasRow(LatestTaggedOrdersV1(LatestRows(db), db.tags), TagKey(r.providerId, r.consumerId, t.name),
                    r.consumerVersionOrder)
    requires q in AllPublications(db) && q.consumerId == r.consumerId && q.providerId == r.providerId
    requires t in db.tags && t.versionId == q.consumerVersionId
    ensures q.consumerVersionOrder.value <= r.consumerVersionOrder.value
  {
    var k := TagKey(r.providerId, r.consumerId, t.name);
    TaggedOrderListed(db, q, t);
    GroupMaxIs(TaggedOrdersV1(LatestRows(db), db.tags), k, r.consumerVersionOrder);
    assert NotAbove((k, q.consumerVersionOrder).1, r.consumerVersionOrder);
  }

  lemma TaggedOrderBears(db: Database, r: PublicationRow, name: string)
    requires Keyed(AllPublications(db)) && r in LatestRows(db) && r.consumerVersionOrder.Some?
    requires (TagKey(r.providerId, r.consumerId, name), r.consumerVersionOrder)
             in TaggedOrdersV1(LatestRows(db), db.tags)
    ensures exists t :: t in db.tags && t.versionId == r.consumerVersionId && t.name == name
  {
    var q, t :| q in LatestRows(db) && t in db.tags && t.versionId == q.consumerVersionId
      && (TagKey(r.providerId, r.consumerId, name), r.consumerVersionOrder)
         == (TagKey(q.providerId, q.consumerId, t.name), q.consumerVersionOrder);
    assert q.consumerVersionId == r.consumerVersionId;
  }

  lemma TaggedOrderListed(db: Database, q: PublicationRow, t: Tag)
    requires Keyed(AllPublications(db)) && q in AllPublications(db) && q.consumerVersionOrder.Some?
    requires t in db.tags && t.versionId == q.consumerVersionId
    ensures (TagKey(q.providerId, q.consumerId, t.name), q.consumerVersionOrder)
            in TaggedOrdersV1(LatestRows(db), db.tags)
  {
    var top := HighestRevisionExists(AllPublications(db), q);
    LatestRevisionIsHighest(AllPublications(db), top);
  }

  // There are no heads of other kinds.
  lemma HeadKinds(db: Database, h: Head)
    requires h in Heads(db)
    ensures h.latest == if h.tagName.None? then Some(1) else None
  {
  }

  // A head is shown with the newest verification of its content, or with nulls when
  // nobody verified it.
  lemma NewestIsShown(db: Database, m: MatrixRow)
    ensures IsNewestFor(db, m.pact, m) <==>
              if m.verification.None? then
                m.providerVersion.None? && forall v | v in db.verifications :: v.pactVersionId != m.pact.pactVersionId
              else
                exists v, s ::
                  && v in db.verifications && s in db.versions
                  && v.pactVersionId == m.pact.pactVersionId && v.providerVersionId == Some(s.id)
                  && (forall w | w in db.verifications && w.pactVersionId == v.pactVersionId :: w.id <= v.id)
                  && m.providerVersion == Some(ProviderVersion(s.id, s.number, s.order))
                  && m.verification == Some(Outcome(v.id, v.success, v.number, v.executedAt, v.buildUrl))
  {
    if m.verification.Some? {
      if v, s :|
          && v in db.verifications && s in db.versions
          && v.pactVersionId == m.pact.pactVersionId && v.providerVersionId == Some(s.id)
          && (forall w | w in db.verifications && w.pactVersionId == v.pactVersionId :: w.id <= v.id)
          && m.providerVersion == Some(ProviderVersion(s.id, s.number, s.order))
          && m.verification == Some(Outcome(v.id, v.success, v.number, v.executedAt, v.buildUrl))
      {
        assert m == VerifiedRow(m.pact, v, s);
        assert IsVerifiedRow(db, m, v, s) && IsNewest(db, v);
      }
    }
  }

  // The head matrix, stacked or flat, has a row exactly for every head, and shows it so.
  lemma HeadMatrixIs(db: Database, x: HeadRow)
    requires ViewsSound(db)
    ensures x in StackedHeadMatrix(db) <==> x in HeadMatrixV2(db)
    ensures x in HeadMatrixV2(db) <==>
              && Head(x.row.pact, x.tagName, if x.tagName.None? then Some(1) else None) in Heads(db)
              && IsNewestFor(db, x.row.pact, x.row)
  {
    StackedIsFlat(db);
    HeadMatrixV2Is(db, x);
    if IsHeadRow(db, Heads(db), x) {
      var h :| h in Heads(db) && x.tagName == h.tagName && IsNewestFor(db, h.pact, x.row);
      HeadKinds(db, h);
      assert h == Head(x.row.pact, x.tagName, if x.tagName.None? then Some(1) else None);
    }
  }

  // In full: a row without a tag is the pact of the newest version of its consumer with
  // a pact with its provider, a row with a tag that of the newest such version with the
  // tag, and each carries the newest verification of its content.
  lemma HeadMatrixShows(db: Database, x: HeadRow)
    requires ViewsSound(db)
    ensures x in StackedHeadMatrix(db) <==> x in HeadMatrixV2(db)
    ensures x in HeadMatrixV2(db) <==>
              var r := x.row.pact;
              && r in AllPublications(db) && r.consumerVersionOrder.Some?
              && (forall q | q in AllPublications(db) && q.consumerVersionId == r.consumerVersionId
                             && q.providerId == r.providerId :: q.revision <= r.revision)
              && (x.tagName.None? ==>
                    forall q | q in AllPublications(db) && q.consumerId == r.consumerId
                               && q.providerId == r.providerId && q.consumerVersionOrder.Some? ::
                      q.consumerVersionOrder.value <= r.consumerVersionOrder.value)
              && (x.tagName.Some? ==>
                    && (exists t :: t in db.tags && t.versionId == r.consumerVersionId && t.name == x.tagName.value)
                    && (forall q, t | q in AllPublications(db) && t in db.tags && t.versionId == q.consumerVersionId
                                      && t.name == x.tagName.value && q.consumerId == r.consumerId
                                      && q.providerId == r.providerId && q.consumerVersionOrder.Some? ::
                          q.consumerVersionOrder.value <= r.consumerVersionOrder.value))
              && (if x.row.verification.None? then
                    && x.row.providerVersion.None?
                    && forall v | v in db.verifications :: v.pactVersionId != r.pactVersionId
                  else
                    exists v, s ::
                      && v in db.verifications && s in db.versions
                      && v.pactVersionId == r.pactVersionId && v.providerVersionId == Some(s.id)
                      && (forall w | w in db.verifications && w.pactVersionId == v.pactVersionId :: w.id <= v.id)
                      && x.row.providerVersion == Some(ProviderVersion(s.id, s.number, s.order))
                      && x.row.verification == Some(Outcome(v.id, v.success, v.number, v.executedAt, v.buildUrl)))
  {
    HeadMatrixIs(db, x);
    NewestIsShown(db, x.row);
    if x.tagName.None? {
      OverallHeadIs(db, x.row.pact);
    } else {
      TagHeadIs(db, x.row.pact, x.tagName.value);
    }
  }

  // The latest matrix has a row for every latest revision and provider version that
  // verified its content, with the newest verification by that version, and one with nulls
  // for every latest revision nobody verified.
  lemma LatestMatrixShows(db: Database, m: MatrixRow)
    requires BaseSound(db)
    ensures m in LatestMatrix(db) <==>
              && m.pact in AllPublications(db)
              && (forall q | q in AllPublications(db) && q.consumerVersionId == m.pact.consumerVersionId
                             && q.providerId == m.pact.providerId :: q.revision <= m.pact.revision)
              && (if m.verification.None? then
                    && m.providerVersion.None?
                    && forall v | v in db.verifications :: v.pactVersionId != m.pact.pactVersionId
                  else
                    exists v, s ::
                      && v in db.verifications && s in db.versions
                      && v.pactVersionId == m.pact.pactVersionId && v.providerVersionId == Some(s.id)
                      && (forall w | w in db.verifications && w.pactVersionId == v.pactVersionId
                                     && w.providerVersionId == v.providerVersionId :: w.id <= v.id)
                      && m.providerVersion == Some(ProviderVersion(s.id, s.number, s.order))
                      && m.verification == Some(Outcome(v.id, v.success, v.number, v.executedAt, v.buildUrl)))
  {
    if m in LatestMatrix(db) { MatrixRowSource(db, m); }
    if m.pact in AllPublications(db) { LatestRowIsHighest(db, m.pact); }
    if m.pact in LatestRows(db) {
      if m.verification.None? {
        OneRowPerUnverifiedRevision(db, m.pact);
      } else {
        NewestOfPairShown(db, m);
      }
    }
  }

  lemma NewestOfPairShown(db: Database, m: MatrixRow)
    requires BaseSound(db) && m.pact in LatestRows(db) && m.verification.Some?
    ensures m in LatestMatrix(db) <==>
              exists v, s ::
                && v in db.verifications && s in db.versions
                && v.pactVersionId == m.pact.pactVersionId && v.providerVersionId == Some(s.id)
                && (forall w | w in db.verifications && w.pactVersionId == v.pactVersionId
                               && w.providerVersionId == v.providerVersionId :: w.id <= v.id)
                && m.providerVersion == Some(ProviderVersion(s.id, s.number, s.order))
                && m.verification == Some(Outcome(v.id, v.success, v.number, v.executedAt, v.buildUrl))
  {
    if m in LatestMatrix(db) {
      var v, s := LatestVerifiedRow(db, m);
      InLatestMatrix(db, m.pact, v, s);
    }
    if v, s :|
        && v in db.verifications && s in db.versions
        && v.pactVersionId == m.pact.pactVersionId && v.providerVersionId == Some(s.id)
        && (forall w | w in db.verifications && w.pactVersionId == v.pactVersionId
                       && w.providerVersionId == v.providerVersionId :: w.id <= v.id)
        && m.providerVersion == Some(ProviderVersion(s.id, s.number, s.order))
        && m.verification == Some(Outcome(v.id, v.success, v.number, v.executedAt, v.buildUrl))
    {
      assert m.providerVersion.value == ProviderVersionOf(s) && m.verification.value == OutcomeOf(v);
      NewestOfPairHeld(db, m, v, s);
    }
  }

  lemma NewestOfPairHeld(db: Database, m: MatrixRow, v: Verification, s: Version)
    requires BaseSound(db) && m.pact in LatestRows(db) && IsNewestByVersion(db, v) && s in db.versions
    requires v.pactVersionId == m.pact.pactVersionId && v.providerVersionId == Some(s.id)
    requires m == MatrixRow(m.pact, Some(ProviderVersionOf(s)), Some(OutcomeOf(v)))
    ensures m in LatestMatrix(db)
  {
    InLatestMatrix(db, m.pact, v, s);
  }

  // The newest verification of a consumer and a provider, by the columns of the
  // verifications, over all of them or over the index table.
  lemma NewestForOwners(db: Database, consumerId: Id, providerId: Id, id: Id)
    requires Declared(db) && VerificationsOwned(db) && VerificationIndexCurrent(db)
    ensures HasRow(GroupMax(OwnedIdsV3(db)), OwnerKey(Some(providerId), Some(consumerId)), Some(id))
       <==> HasRow(GroupMax(OwnedIdsV2(db)), OwnerKey(Some(providerId), Some(consumerId)), Some(id))
    ensures HasRow(GroupMax(OwnedIdsV2(db)), OwnerKey(Some(providerId), Some(consumerId)), Some(id)) <==>
              && (exists v :: v in db.verifications && v.id == id
                              && v.consumerId == Some(consumerId) && v.providerId == Some(providerId))
              && (forall w | w in db.verifications && w.consumerId == Some(consumerId)
                             && w.providerId == Some(providerId) :: w.id <= id)
  {
    LatestForConsumerAndProviderAgree(db);
    NewestOwned(db, consumerId, providerId, id);
  }

  lemma NewestOwned(db: Database, consumerId: Id, providerId: Id, id: Id)
    ensures HasRow(GroupMax(OwnedIdsV2(db)), OwnerKey(Some(providerId), Some(consumerId)), Some(id)) <==>
              && (exists v :: v in db.verifications && v.id == id
                              && v.consumerId == Some(consumerId) && v.providerId == Some(providerId))
              && (forall w | w in db.verifications && w.consumerId == Some(consumerId)
                             && w.providerId == Some(providerId) :: w.id <= id)
  {
    var base, k := OwnedIdsV2(db), OwnerKey(Some(providerId), Some(consumerId));
    GroupMaxOfNumbers(base, k, id);
    OwnedEntry(db, consumerId, providerId, id);
    if HasRow(GroupMax(base), k, Some(id)) {
      forall w | w in db.verifications && w.consumerId == Some(consumerId) && w.providerId == Some(providerId)
        ensures w.id <= id
      {
        OwnedEntry(db, consumerId, providerId, w.id);
      }
    } else if (k, Some(id)) in base {
      var i :| (k, Some(i)) in base && i > id;
      OwnedEntry(db, consumerId, providerId, i);
    }
  }

  lemma OwnedEntry(db: Database, consumerId: Id, providerId: Id, id: Id)
    ensures (OwnerKey(Some(providerId), Some(consumerId)), Some(id)) in OwnedIdsV2(db) <==>
              exists v :: v in db.verifications && v.id == id
                          && v.consumerId == Some(consumerId) && v.providerId == Some(providerId)
  {
    if v :| v in db.verifications && v.id == id && v.consumerId == Some(consumerId)
            && v.providerId == Some(providerId)
    {
      assert (OwnerKey(v.providerId, v.consumerId), Some(v.id)) in OwnedIdsV2(db);
    }
  }

  // A latest revision of the consumer's pact with the provider whose version bears the tag.
  ghost predicate TaggedRevision(db: Database, r: PublicationRow, consumerId: Id, providerId: Id, name: string) {
    && r in AllPublications(db) && r.consumerId == consumerId && r.providerId == providerId
    && (forall q | q in AllPublications(db) && q.consumerVersionId == r.consumerVersionId
                   && q.providerId == r.providerId :: q.revision <= r.revision)
    && (exists t :: t in db.tags && t.versionId == r.consumerVersionId && t.name == name)
  }

  ghost predicate OfTaggedRevision(db: Database, v: Verification, consumerId: Id, providerId: Id, name: string) {
    exists r {:trigger TaggedRevision(db, r, consumerId, providerId, name)} ::
      TaggedRevision(db, r, consumerId, providerId, name) && v.pactVersionId == r.pactVersionId
  }

  // The verifications of the contents of these.
  ghost function TaggedVerifications(db: Database, consumerId: Id, providerId: Id, name: string): set<Verification> {
    set v | v in db.verifications && OfTaggedRevision(db, v, consumerId, providerId, name)
  }

  // The newest of these is what the definitions find for the tag.
  lemma NewestForTag(db: Database, consumerId: Id, providerId: Id, name: string, id: Id)
    requires ViewsSound(db)
    ensures var verifications := TaggedVerifications(db, consumerId, providerId, name);
            HasRow(GroupMax(TaggedIdsV1(db)), TagKey(providerId, consumerId, name), Some(id)) <==>
              (exists v :: v in verifications && v.id == id) && forall w | w in verifications :: w.id <= id
  {
    TaggedEntriesAre(db, consumerId, providerId, name);
    NewestEntry(TaggedIdsV1(db), TagKey(providerId, consumerId, name), id,
                TaggedVerifications(db, consumerId, providerId, name));
  }

  lemma NewestEntry(entries: set<(TagKey, Num)>, k: TagKey, id: Id, verifications: set<Verification>)
    requires forall p | p in entries :: p.1.Some?
    requires forall i :: (k, Some(i)) in entries <==> exists v :: v in verifications && v.id == i
    ensures HasRow(GroupMax(entries), k, Some(id)) <==>
              (exists v :: v in verifications && v.id == id) && forall w | w in verifications :: w.id <= id
  {
    GroupMaxOfNumbers(entries, k, id);
    forall v | v in verifications ensures (k, Some(v.id)) in entries {
    }
  }

  lemma TaggedEntriesAre(db: Database, consumerId: Id, providerId: Id, name: string)
    requires ViewsSound(db)
    ensures forall p | p in TaggedIdsV1(db) :: p.1.Some?
    ensures forall i :: (TagKey(providerId, consumerId, name), Some(i)) in TaggedIdsV1(db)
                   <==> exists v :: v in TaggedVerifications(db, consumerId, providerId, name) && v.id == i
  {
    forall i
      ensures (TagKey(providerId, consumerId, name), Some(i)) in TaggedIdsV1(db)
         <==> exists v :: v in TaggedVerifications(db, consumerId, providerId, name) && v.id == i
    {
      TaggedEntryIs(db, consumerId, providerId, name, i);
    }
  }

  lemma TaggedEntryIs(db: Database, consumerId: Id, providerId: Id, name: string, id: Id)
    requires ViewsSound(db)
    ensures (TagKey(providerId, consumerId, name), Some(id)) in TaggedIdsV1(db)
       <==> exists v :: v in TaggedVerifications(db, consumerId, providerId, name) && v.id == id
  {
    if (TagKey(providerId, consumerId, name), Some(id)) in TaggedIdsV1(db) {
      var u := TaggedEntrySource(db, (TagKey(providerId, consumerId, name), Some(id)));
    }
    if v :| v in TaggedVerifications(db, consumerId, providerId, name) && v.id == id {
      TaggedEntry(db, v, consumerId, providerId, name);
    }
  }

  lemma TaggedEntry(db: Database, v: Verification, consumerId: Id, providerId: Id, name: string)
    requires ViewsSound(db) && v in TaggedVerifications(db, consumerId, providerId, name)
    ensures (TagKey(providerId, consumerId, name), Some(v.id)) in TaggedIdsV1(db)
  {
    var r :| TaggedRevision(db, r, consumerId, providerId, name) && v.pactVersionId == r.pactVersionId;
    var t :| t in db.tags && t.versionId == r.consumerVersionId && t.name == name;
    LatestRowIsHighest(db, r);
    var s := VerificationOfRow(db, r, v);
    assert r in ByConsumerVersionsV1(AllPublications(db));
  }

  lemma TaggedEntrySource(db: Database, q: (TagKey, Num)) returns (v: Verification)
    requires ViewsSound(db) && q in TaggedIdsV1(db)
    ensures v in TaggedVerifications(db, q.0.consumerId, q.0.providerId, q.0.tagName) && q.1 == Some(v.id)
  {
    var u, r, t, s :| u in db.verifications && r in ByConsumerVersionsV1(AllPublications(db)) && t in db.tags
      && s in db.versions
      && u.pactVersionId == r.pactVersionId && r.consumerVersionId == t.versionId && u.providerVersionId == Some(s.id)
      && q == (TagKey(s.pacticipantId, r.consumerId, t.name), Some(u.id));
    v := u;
    LatestRowIsHighest(db, r);
    var s' := VerificationOfRow(db, r, v);
    assert s == s';
    assert TaggedRevision(db, r, q.0.consumerId, q.0.providerId, q.0.tagName);
  }

  // The tags a publication is the head of are those under which it is a head.
  lemma HeadTagShows(db: Database, name: string, publicationId: Id)
    requires TagViewsSound(db)
    ensures HeadTag(name, publicationId) in HeadPactTagsV1(db) <==>
              exists r: PublicationRow :: r.id == publicationId && Head(r, Some(name), None) in Heads(db)
  {
    HeadsAgree(db);
    if HeadTag(name, publicationId) in HeadPactTagsV1(db) {
      var l, cv, k :| l in db.lpp && cv in db.versions && k in LatestTaggedOrdersV4(db.lpp, db.tags)
        && k == TagKey(l.providerId, l.consumerId, k.tagName) && IsHeadFor(db, l, cv, k.tagName)
        && HeadTag(name, publicationId) == HeadTag(k.tagName, l.publicationId);
      TagIsHead(db, l, cv, k);
    }
    if r: PublicationRow :| r.id == publicationId && Head(r, Some(name), None) in Heads(db) {
      HeadIsTagged(db, r, name);
    }
  }

  lemma TagIsHead(db: Database, l: LatestPublication, cv: Version, k: TagKey)
    requires TagViewsSound(db) && k in LatestTaggedOrdersV4(db.lpp, db.tags)
    requires k == TagKey(l.providerId, l.consumerId, k.tagName) && IsHeadFor(db, l, cv, k.tagName)
    ensures exists r: PublicationRow :: r.id == l.publicationId && Head(r, Some(k.tagName), None) in IndexedHeads(db)
  {
    var r, p, v := IndexRowSource(db, l);
    assert v == cv;
    assert r in ByConsumerVersionsV3(db.lpp, AllPublications(db));
    assert Head(r, Some(k.tagName), None)
        in TagHeadRows(ByConsumerVersionsV3(db.lpp, AllPublications(db)), LatestTaggedOrdersV4(db.lpp, db.tags));
  }

  lemma HeadIsTagged(db: Database, r: PublicationRow, name: string)
    requires TagViewsSound(db) && Head(r, Some(name), None) in IndexedHeads(db)
    ensures HeadTag(name, r.id) in HeadPactTagsV1(db)
  {
    var k := TagKey(r.providerId, r.consumerId, name);
    var l := CurrentRowIndexed(db, r);
    var p, cv := RowDescribes(db, r);
    assert IsHeadFor(db, l, cv, name) && k in LatestTaggedOrdersV4(db.lpp, db.tags);
  }
}
