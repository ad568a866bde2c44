// The newest consumer version with a pact for each tag, four definitions, and
// the views that find the tags a pact is the head of.
module TagHeads {
  import opened Sql
  import opened Schema
  import opened LatestPublications

  datatype TagKey = TagKey(providerId: Id, consumerId: Id, tagName: string)

  // What each definition of latest_tagged_pact_consumer_version_orders groups:
  // the latest view joined to tags,
  ghost function TaggedOrdersV1(byVersion: set<PublicationRow>, tags: set<Tag>): set<(TagKey, Num)> {
    set r, t | r in byVersion && t in tags && t.versionId == r.consumerVersionId
      :: (TagKey(r.providerId, r.consumerId, t.name), r.consumerVersionOrder)
  }

  // every revision,
  ghost function TaggedOrdersV2(publications: set<Publication>, versions: set<Version>,
                                tags: set<Tag>): set<(TagKey, Num)>
  {
    set p, cv, t | p in publications && cv in versions && t in tags
      && p.consumerVersionId == cv.id && t.versionId == p.consumerVersionId
      :: (TagKey(p.providerId, cv.pacticipantId, t.name), cv.order)
  }

  // the index table joined to versions,
  ghost function TaggedOrdersV3(lpp: set<LatestPublication>, versions: set<Version>,
                                tags: set<Tag>): set<(TagKey, Num)>
  {
    set l, cv, t | l in lpp && cv in versions && t in tags
      && l.consumerVersionId == cv.id && t.versionId == l.consumerVersionId
      :: (TagKey(l.providerId, l.consumerId, t.name), cv.order)
  }

  // and the index table with the order copied into tags.
  ghost function TaggedOrdersV4(lpp: set<LatestPublication>, tags: set<Tag>): set<(TagKey, Num)> {
    set l, t | l in lpp && t in tags && t.versionId == l.consumerVersionId
      :: (TagKey(l.providerId, l.consumerId, t.name), t.versionOrder)
  }

  ghost function LatestTaggedOrdersV1(byVersion: set<PublicationRow>, tags: set<Tag>): map<TagKey, Num> {
    GroupMax(TaggedOrdersV1(byVersion, tags))
  }

  ghost function LatestTaggedOrdersV2(publications: set<Publication>, versions: set<Version>,
                                      tags: set<Tag>): map<TagKey, Num>
  {
    GroupMax(TaggedOrdersV2(publications, versions, tags))
  }

  ghost function LatestTaggedOrdersV3(lpp: set<LatestPublication>, versions: set<Version>,
                                      tags: set<Tag>): map<TagKey, Num>
  {
    GroupMax(TaggedOrdersV3(lpp, versions, tags))
  }

  ghost function LatestTaggedOrdersV4(lpp: set<LatestPublication>, tags: set<Tag>): map<TagKey, Num> {
    GroupMax(TaggedOrdersV4(lpp, tags))
  }

  // The hypotheses the four definitions need.
  ghost predicate TagViewsSound(db: Database) {
    Declared(db) && OrdersKnown(db) && TagOrdersCopied(db) && IndexCurrent(db)
  }

  lemma LatestTaggedOrdersAgree(db: Database)
    requires TagViewsSound(db)
    ensures var byVersion := ByConsumerVersionsV1(AllPublications(db));
            && LatestTaggedOrdersV1(byVersion, db.tags) == LatestTaggedOrdersV2(db.publications, db.versions, db.tags)
            && LatestTaggedOrdersV2(db.publications, db.versions, db.tags) ==
              LatestTaggedOrdersV3(db.lpp, db.versions, db.tags)
            && LatestTaggedOrdersV3(db.lpp, db.versions, db.tags) == LatestTaggedOrdersV4(db.lpp, db.tags)
  {
    var byVersion := ByConsumerVersionsV1(AllPublications(db));
    V1WithinV2(db);
    V2WithinV3(db);
    V3IsV4(db);
    V3WithinV1(db);
    assert TaggedOrdersV1(byVersion, db.tags) == TaggedOrdersV2(db.publications, db.versions, db.tags)
        == TaggedOrdersV3(db.lpp, db.versions, db.tags);
  }

  lemma V1WithinV2(db: Database)
    requires TagViewsSound(db)
    ensures TaggedOrdersV1(ByConsumerVersionsV1(AllPublications(db)), db.tags)
         <= TaggedOrdersV2(db.publications, db.versions, db.tags)
  {
    var byVersion := ByConsumerVersionsV1(AllPublications(db));
    forall q | q in TaggedOrdersV1(byVersion, db.tags)
      ensures q in TaggedOrdersV2(db.publications, db.versions, db.tags)
    {
      var r, t :| r in byVersion && t in db.tags && t.versionId == r.consumerVersionId
        && q == (TagKey(r.providerId, r.consumerId, t.name), r.consumerVersionOrder);
      var p, v := RowDescribes(db, r);
    }
  }

  lemma V2WithinV3(db: Database)
    requires TagViewsSound(db)
    ensures TaggedOrdersV2(db.publications, db.versions, db.tags) <= TaggedOrdersV3(db.lpp, db.versions, db.tags)
  {
    forall q | q in TaggedOrdersV2(db.publications, db.versions, db.tags)
      ensures q in TaggedOrdersV3(db.lpp, db.versions, db.tags)
    {
      var p, cv, t :| p in db.publications && cv in db.versions && t in db.tags
        && p.consumerVersionId == cv.id && t.versionId == p.consumerVersionId
        && q == (TagKey(p.providerId, cv.pacticipantId, t.name), cv.order);
      var r := PublicationHasRow(db, p);
      var top := HighestRevisionExists(AllPublications(db), r);
      var _, v := RowDescribes(db, top);
      assert IndexRow(top) in db.lpp;
    }
  }

  lemma V3IsV4(db: Database)
    requires TagViewsSound(db)
    ensures TaggedOrdersV3(db.lpp, db.versions, db.tags) == TaggedOrdersV4(db.lpp, db.tags)
  {
    forall q | q in TaggedOrdersV4(db.lpp, db.tags) ensures q in TaggedOrdersV3(db.lpp, db.versions, db.tags) {
      var l, t :| l in db.lpp && t in db.tags && t.versionId == l.consumerVersionId
        && q == (TagKey(l.providerId, l.consumerId, t.name), t.versionOrder);
      var r :| r in AllPublications(db) && l == IndexRow(r);
      var _, v := RowDescribes(db, r);
    }
  }

  lemma V3WithinV1(db: Database)
    requires TagViewsSound(db)
    ensures TaggedOrdersV3(db.lpp, db.versions, db.tags)
         <= TaggedOrdersV1(ByConsumerVersionsV1(AllPublications(db)), db.tags)
  {
    var rows := AllPublications(db);
    AllPublicationsKeyed(db);
    RowsOrdered(db);
    forall q | q in TaggedOrdersV3(db.lpp, db.versions, db.tags)
      ensures q in TaggedOrdersV1(ByConsumerVersionsV1(rows), db.tags)
    {
      var l, cv, t :| l in db.lpp && cv in db.versions && t in db.tags
        && l.consumerVersionId == cv.id && t.versionId == l.consumerVersionId
        && q == (TagKey(l.providerId, l.consumerId, t.name), cv.order);
      var r :| r in rows && IsHighestRevision(rows, r) && l == IndexRow(r);
      var _, v := RowDescribes(db, r);
      LatestRevisionIsHighest(rows, r);
    }
  }

  datatype HeadTag = HeadTag(name: string, publicationId: Id)
  datatype DatedHeadTag = DatedHeadTag(name: string, publicationId: Id, createdAt: int)

  // The rows both definitions of head_pact_tags join: an index row, its version
  // and a tag whose newest order is that version's.
  ghost predicate IsHeadFor(db: Database, l: LatestPublication, cv: Version, name: string) {
    && l in db.lpp && cv in db.versions && l.consumerVersionId == cv.id && cv.order.Some?
    && HasRow(LatestTaggedOrdersV4(db.lpp, db.tags), TagKey(l.providerId, l.consumerId, name), cv.order)
  }

  ghost function HeadPactTagsV1(db: Database): set<HeadTag> {
    set l, cv, k | l in db.lpp && cv in db.versions && k in LatestTaggedOrdersV4(db.lpp, db.tags)
      && k == TagKey(l.providerId, l.consumerId, k.tagName) && IsHeadFor(db, l, cv, k.tagName)
      :: HeadTag(k.tagName, l.publicationId)
  }

  ghost function HeadPactTagsV2(db: Database): set<DatedHeadTag> {
    set l, cv, k, t | l in db.lpp && cv in db.versions && k in LatestTaggedOrdersV4(db.lpp, db.tags) && t in db.tags
      && k == TagKey(l.providerId, l.consumerId, k.tagName) && IsHeadFor(db, l, cv, k.tagName)
      && t.versionId == cv.id && t.name == k.tagName
      :: DatedHeadTag(k.tagName, l.publicationId, t.createdAt)
  }

  // The extra join meets exactly one tag: the version that bears the tag with the
  // newest order is the version joined, because (pacticipant, order) identifies it.
  lemma HeadVersionBearsTag(db: Database, l: LatestPublication, cv: Version, name: string) returns (t: Tag)
    requires TagViewsSound(db) && IsHeadFor(db, l, cv, name)
    ensures t in db.tags && t.versionId == cv.id && t.name == name
    ensures forall u | u in db.tags && u.versionId == cv.id && u.name == name :: u == t
  {
    var v';
    v', t := NewestTagged(db, TagKey(l.providerId, l.consumerId, name), cv.order);
    IndexRowOfConsumer(db, l, cv);
    assert v' == cv;
  }

  lemma NewestTagged(db: Database, key: TagKey, order: Num) returns (v: Version, t: Tag)
    requires TagViewsSound(db) && HasRow(LatestTaggedOrdersV4(db.lpp, db.tags), key, order)
    ensures v in db.versions && v.pacticipantId == key.consumerId && v.order == order
    ensures t in db.tags && t.versionId == v.id && t.name == key.tagName
  {
    assert (key, order) in TaggedOrdersV4(db.lpp, db.tags) by {
      GroupMaxIs(TaggedOrdersV4(db.lpp, db.tags), key, order);
    }
    V3IsV4(db);
    v, t := TaggedVersion(db, key, order);
  }

  lemma TaggedVersion(db: Database, key: TagKey, order: Num) returns (v: Version, t: Tag)
    requires PrimaryKeys(db) && IndexCurrent(db) && (key, order) in TaggedOrdersV3(db.lpp, db.versions, db.tags)
    ensures v in db.versions && v.pacticipantId == key.consumerId && v.order == order
    ensures t in db.tags && t.versionId == v.id && t.name == key.tagName
  {
    var l, v', t' :| l in db.lpp && v' in db.versions && t' in db.tags
      && l.consumerVersionId == v'.id && t'.versionId == l.consumerVersionId
      && (key, order) == (TagKey(l.providerId, l.consumerId, t'.name), v'.order);
    IndexRowOfConsumer(db, l, v');
    v, t := v', t';
  }

  lemma IndexRowOfConsumer(db: Database, l: LatestPublication, cv: Version)
    requires PrimaryKeys(db) && IndexCurrent(db)
    requires l in db.lpp && cv in db.versions && l.consumerVersionId == cv.id
    ensures cv.pacticipantId == l.consumerId
  {
    var r :| r in AllPublications(db) && l == IndexRow(r);
    var _, v := RowDescribes(db, r);
  }

  ghost function WithoutDate(h: DatedHeadTag): HeadTag { HeadTag(h.name, h.publicationId) }

  // head_pact_tags v2 has one row for each row of v1: none dropped, none doubled.
  lemma HeadPactTagsAgree(db: Database)
    requires TagViewsSound(db)
    ensures (set h | h in HeadPactTagsV2(db) :: WithoutDate(h)) == HeadPactTagsV1(db)
    ensures forall h, i | h in HeadPactTagsV2(db) && i in HeadPactTagsV2(db) && WithoutDate(h) == WithoutDate(i) ::
              h == i
  {
    forall h | h in HeadPactTagsV1(db) ensures exists d :: d in HeadPactTagsV2(db) && WithoutDate(d) == h {
      var d := HeadTagKept(db, h);
    }
    forall d | d in HeadPactTagsV2(db) ensures WithoutDate(d) in HeadPactTagsV1(db) {
      var _, _, _, _ := HeadTagSource(db, d);
    }
    forall h, i | h in HeadPactTagsV2(db) && i in HeadPactTagsV2(db) && WithoutDate(h) == WithoutDate(i)
      ensures h == i
    {
      DatesAgree(db, h, i);
    }
  }

  lemma HeadTagKept(db: Database, h: HeadTag) returns (d: DatedHeadTag)
    requires TagViewsSound(db) && h in HeadPactTagsV1(db)
    ensures d in HeadPactTagsV2(db) && WithoutDate(d) == h
  {
    var l, cv, k :| l in db.lpp && cv in db.versions && k in LatestTaggedOrdersV4(db.lpp, db.tags)
      && k == TagKey(l.providerId, l.consumerId, k.tagName) && IsHeadFor(db, l, cv, k.tagName)
      && h == HeadTag(k.tagName, l.publicationId);
    d := HeadTagDated(db, l, cv, k);
  }

  lemma HeadTagDated(db: Database, l: LatestPublication, cv: Version, k: TagKey) returns (d: DatedHeadTag)
    requires TagViewsSound(db) && k in LatestTaggedOrdersV4(db.lpp, db.tags)
    requires k == TagKey(l.providerId, l.consumerId, k.tagName) && IsHeadFor(db, l, cv, k.tagName)
    ensures d in HeadPactTagsV2(db) && WithoutDate(d) == HeadTag(k.tagName, l.publicationId)
  {
    var t := HeadVersionBearsTag(db, l, cv, k.tagName);
    d := DatedHeadTag(k.tagName, l.publicationId, t.createdAt);
  }

  lemma HeadTagSource(db: Database, d: DatedHeadTag) returns (l: LatestPublication, cv: Version, k: TagKey, t: Tag)
    requires d in HeadPactTagsV2(db)
    ensures l in db.lpp && cv in db.versions && l.consumerVersionId == cv.id && t in db.tags
    ensures t.versionId == cv.id && t.name == k.tagName
    ensures d == DatedHeadTag(k.tagName, l.publicationId, t.createdAt)
    ensures WithoutDate(d) in HeadPactTagsV1(db)
  {
    l, cv, k, t :| l in db.lpp && cv in db.versions && k in LatestTaggedOrdersV4(db.lpp, db.tags) && t in db.tags
      && k == TagKey(l.providerId, l.consumerId, k.tagName) && IsHeadFor(db, l, cv, k.tagName)
      && t.versionId == cv.id && t.name == k.tagName
      && d == DatedHeadTag(k.tagName, l.publicationId, t.createdAt);
  }

  lemma DatesAgree(db: Database, h: DatedHeadTag, i: DatedHeadTag)
    requires PrimaryKeys(db) && UniqueIndexes(db) && IndexCurrent(db)
    requires h in HeadPactTagsV2(db) && i in HeadPactTagsV2(db) && WithoutDate(h) == WithoutDate(i)
    ensures h == i
  {
    var l1, _, _, t1 := HeadTagSource(db, h);
    var l2, _, _, t2 := HeadTagSource(db, i);
    SamePublicationSameIndexRow(db, l1, l2);
    assert t1 == t2;
  }

  lemma SamePublicationSameIndexRow(db: Database, l1: LatestPublication, l2: LatestPublication)
    requires PrimaryKeys(db) && UniqueIndexes(db) && IndexCurrent(db)
    requires l1 in db.lpp && l2 in db.lpp && l1.publicationId == l2.publicationId
    ensures l1 == l2
  {
    AllPublicationsKeyed(db);
    var r1 :| r1 in AllPublications(db) && l1 == IndexRow(r1);
    var r2 :| r2 in AllPublications(db) && l2 == IndexRow(r2);
  }
}
