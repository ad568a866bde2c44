// The broker's tables, the keys the schema declares and the facts the views
// rely on without declaring them.
module Schema {
  import opened Basics
  import opened Sql

  type Id = int

  datatype Pacticipant = Pacticipant(id: Id, name: string)

  datatype Version = Version(id: Id, number: string, pacticipantId: Id, order: Num)

  datatype PactVersion = PactVersion(id: Id, consumerId: Id, providerId: Id, sha: string)

  datatype Publication = Publication(
    id: Id, consumerId: Id, consumerVersionId: Id, providerId: Id, revision: int, pactVersionId: Id, createdAt: int)

  datatype Tag = Tag(versionId: Id, name: string, versionOrder: Num, createdAt: int)

  datatype Verification = Verification(
    id: Id, number: Num, success: bool, pactVersionId: Id, providerVersionId: Num,
    consumerId: Num, providerId: Num, executedAt: int, buildUrl: Option<string>)

  // A row of latest_pact_publication_ids_for_consumer_versions.
  datatype LatestPublication = LatestPublication(
    consumerId: Id, consumerVersionId: Id, providerId: Id, publicationId: Id, pactVersionId: Id)

  // A row of latest_verification_id_for_pact_version_and_provider_version.
  datatype LatestVerification = LatestVerification(
    consumerId: Id, pactVersionId: Id, providerId: Id, providerVersionId: Id, verificationId: Id)

  datatype Database = Database(
    pacticipants: set<Pacticipant>,
    versions: set<Version>,
    pactVersions: set<PactVersion>,
    publications: set<Publication>,
    tags: set<Tag>,
    verifications: set<Verification>,
    lpp: set<LatestPublication>,
    lv: set<LatestVerification>)

  ghost predicate PrimaryKeys(db: Database) {
    && (forall a, b | a in db.pacticipants && b in db.pacticipants && a.id == b.id :: a == b)
    && (forall a, b | a in db.versions && b in db.versions && a.id == b.id :: a == b)
    && (forall a, b | a in db.pactVersions && b in db.pactVersions && a.id == b.id :: a == b)
    && (forall a, b | a in db.publications && b in db.publications && a.id == b.id :: a == b)
    && (forall a, b | a in db.verifications && b in db.verifications && a.id == b.id :: a == b)
    && (forall a, b | a in db.tags && b in db.tags && a.versionId == b.versionId && a.name == b.name :: a == b)
  }

  // The unique indexes. NULLs never clash.
  ghost predicate UniqueIndexes(db: Database) {
    && (forall a, b | a in db.versions && b in db.versions && a.pacticipantId == b.pacticipantId
          && a.order == b.order && a.order.Some? :: a == b)
    && (forall a, b | a in db.publications && b in db.publications && a.consumerVersionId == b.consumerVersionId
          && a.providerId == b.providerId && a.revision == b.revision :: a == b)
    && (forall a, b | a in db.verifications && b in db.verifications && a.pactVersionId == b.pactVersionId
          && a.number == b.number && a.number.Some? :: a == b)
  }

  ghost predicate VersionRefers(db: Database, v: Version) {
    exists c :: c in db.pacticipants && c.id == v.pacticipantId
  }

  ghost predicate PublicationRefers(db: Database, p: Publication) {
    && (exists v :: v in db.versions && v.id == p.consumerVersionId)
    && (exists c :: c in db.pacticipants && c.id == p.providerId)
    && (exists pv :: pv in db.pactVersions && pv.id == p.pactVersionId)
  }

  ghost predicate VerificationRefers(db: Database, v: Verification) {
    && (exists pv :: pv in db.pactVersions && pv.id == v.pactVersionId)
    && (v.providerVersionId.Some? ==> exists s :: s in db.versions && s.id == v.providerVersionId.value)
  }

  ghost predicate PublicationsRefer(db: Database) {
    && (forall v {:trigger VersionRefers(db, v)} | v in db.versions :: VersionRefers(db, v))
    && (forall p {:trigger PublicationRefers(db, p)} | p in db.publications :: PublicationRefers(db, p))
  }

  ghost predicate ForeignKeys(db: Database) {
    && PublicationsRefer(db)
    && (forall v {:trigger VerificationRefers(db, v)} | v in db.verifications :: VerificationRefers(db, v))
  }

  ghost predicate Declared(db: Database) {
    PrimaryKeys(db) && UniqueIndexes(db) && ForeignKeys(db)
  }

  // Not declared, but kept by the code that writes the rows.

  // Every version that has a pact has been given its place in the order.
  ghost predicate OrdersKnown(db: Database) {
    forall p, v | p in db.publications && v in db.versions && v.id == p.consumerVersionId :: v.order.Some?
  }

  // A publication's consumer_id copies its consumer version's, and its pact
  // version belongs to its consumer and provider.
  ghost predicate PublicationOwned(db: Database, p: Publication) {
    && (forall v | v in db.versions && v.id == p.consumerVersionId :: v.pacticipantId == p.consumerId)
    && (forall pv | pv in db.pactVersions && pv.id == p.pactVersionId ::
          pv.consumerId == p.consumerId && pv.providerId == p.providerId)
  }

  ghost predicate PactVersionsOwned(db: Database) {
    forall p {:trigger PublicationOwned(db, p)} | p in db.publications :: PublicationOwned(db, p)
  }

  // A verification names a version of its pact version's provider, and its
  // consumer_id and provider_id columns copy the pact version's.
  ghost predicate VerificationOwned(db: Database, v: Verification) {
    && v.providerVersionId.Some?
    && forall pv | pv in db.pactVersions && pv.id == v.pactVersionId ::
         && v.consumerId == Some(pv.consumerId) && v.providerId == Some(pv.providerId)
         && forall s | s in db.versions && Some(s.id) == v.providerVersionId :: s.pacticipantId == pv.providerId
  }

  ghost predicate VerificationsOwned(db: Database) {
    forall v {:trigger VerificationOwned(db, v)} | v in db.verifications :: VerificationOwned(db, v)
  }

  // tags.version_order copies the order of the tagged version.
  ghost predicate TagOrdersCopied(db: Database) {
    forall t, v | t in db.tags && v in db.versions && v.id == t.versionId :: t.versionOrder == v.order
  }

  ghost predicate WellFormed(db: Database) {
    && Declared(db) && OrdersKnown(db) && PactVersionsOwned(db)
    && VerificationsOwned(db) && TagOrdersCopied(db)
  }
}
