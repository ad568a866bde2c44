// A small broker that meets everything the views assume: one pact in two revisions,
// tagged, and one of its contents verified twice by one provider version.
module Example {
  import opened Basics
  import opened Sql
  import opened Schema
  import opened LatestPublications
  import opened LatestVerifications
  import opened Verifying

  const CONSUMER := Pacticipant(1, "Foo")
  const PROVIDER := Pacticipant(2, "Bar")
  const CONSUMER_VERSION := Version(10, "1.0.0", 1, Some(0))
  const PROVIDER_VERSION := Version(20, "4.5.6", 2, Some(0))
  const FIRST_CONTENT := PactVersion(30, 1, 2, "abc")
  const SECOND_CONTENT := PactVersion(31, 1, 2, "def")
  const FIRST_REVISION := Publication(40, 1, 10, 2, 1, 30, 0)
  const SECOND_REVISION := Publication(41, 1, 10, 2, 2, 31, 1)
  const TAG := Tag(10, "prod", Some(0), 2)

  // Which content was verified, and the numbers of its verifications, are open.
  function Failure(content: Id, number: Num): Verification {
    Verification(50, number, false, content, Some(20), Some(1), Some(2), 3, None)
  }

  function Success(content: Id, number: Num): Verification {
    Verification(51, number, true, content, Some(20), Some(1), Some(2), 4, None)
  }

  function Broker(content: Id, first: Num, second: Num): Database {
    Database(
      {CONSUMER, PROVIDER}, {CONSUMER_VERSION, PROVIDER_VERSION}, {FIRST_CONTENT, SECOND_CONTENT},
      {FIRST_REVISION, SECOND_REVISION}, {TAG}, {Failure(content, first), Success(content, second)},
      {LatestPublication(1, 10, 2, 41, 31)}, {LatestVerification(1, content, 2, 20, 51)})
  }

  // One of the two contents, and numbers that do not clash.
  ghost predicate Fits(content: Id, first: Num, second: Num) {
    (content == 30 || content == 31) && (first == second ==> first.None?)
  }

  function FirstRow(): PublicationRow { PublishedRow(FIRST_REVISION, FIRST_CONTENT) }

  function SecondRow(): PublicationRow { PublishedRow(SECOND_REVISION, SECOND_CONTENT) }

  function PublishedRow(p: Publication, pv: PactVersion): PublicationRow {
    PublicationRow(p.id, 1, "Foo", 10, "1.0.0", Some(0), 2, "Bar", p.revision, pv.id, pv.sha, p.createdAt)
  }

  lemma BrokerKeys(content: Id, first: Num, second: Num)
    requires Fits(content, first, second)
    ensures PrimaryKeys(Broker(content, first, second)) && UniqueIndexes(Broker(content, first, second))
  {
  }

  lemma BrokerRefers(content: Id, first: Num, second: Num)
    requires Fits(content, first, second)
    ensures ForeignKeys(Broker(content, first, second))
  {
    var db := Broker(content, first, second);
    assert CONSUMER in db.pacticipants && PROVIDER in db.pacticipants;
    assert VersionRefers(db, CONSUMER_VERSION) && VersionRefers(db, PROVIDER_VERSION);
    assert CONSUMER_VERSION in db.versions && PROVIDER_VERSION in db.versions;
    assert FIRST_CONTENT in db.pactVersions && SECOND_CONTENT in db.pactVersions;
    assert PublicationRefers(db, FIRST_REVISION) && PublicationRefers(db, SECOND_REVISION);
    assert VerificationRefers(db, Failure(content, first)) && VerificationRefers(db, Success(content, second));
  }

  lemma BrokerCopies(content: Id, first: Num, second: Num)
    ensures OrdersKnown(Broker(content, first, second)) && TagOrdersCopied(Broker(content, first, second))
  {
  }

  lemma BrokerOwners(content: Id, first: Num, second: Num)
    requires Fits(content, first, second)
    ensures PactVersionsOwned(Broker(content, first, second)) && VerificationsOwned(Broker(content, first, second))
  {
    var db := Broker(content, first, second);
    assert PublicationOwned(db, FIRST_REVISION) && PublicationOwned(db, SECOND_REVISION);
    assert VerificationOwned(db, Failure(content, first)) && VerificationOwned(db, Success(content, second));
  }

  lemma BrokerRows(content: Id, first: Num, second: Num)
    ensures AllPublications(Broker(content, first, second)) == {FirstRow(), SecondRow()}
  {
    assert Denormalise(FIRST_REVISION, CONSUMER_VERSION, CONSUMER, PROVIDER, FIRST_CONTENT) == FirstRow();
    assert Denormalise(SECOND_REVISION, CONSUMER_VERSION, CONSUMER, PROVIDER, SECOND_CONTENT) == SecondRow();
  }

  lemma BrokerIndexCurrent(content: Id, first: Num, second: Num)
    ensures IndexCurrent(Broker(content, first, second))
  {
    BrokerRows(content, first, second);
    assert IsHighestRevision({FirstRow(), SecondRow()}, SecondRow());
    assert !IsHighestRevision({FirstRow(), SecondRow()}, FirstRow());
    assert IndexRow(SecondRow()) == LatestPublication(1, 10, 2, 41, 31);
  }

  lemma BrokerLastEntries(content: Id, first: Num, second: Num)
    ensures Broker(content, first, second).lv == LastEntries(Broker(content, first, second).verifications)
  {
    var verifications := Broker(content, first, second).verifications;
    assert IsLast(verifications, Success(content, second)) && !IsLast(verifications, Failure(content, first));
    assert Entry(Success(content, second)) == LatestVerification(1, content, 2, 20, 51);
  }

  lemma BrokerNewest(content: Id, first: Num, second: Num)
    ensures IsNewest(Broker(content, first, second), Success(content, second))
  {
    assert Success(content, second) in Broker(content, first, second).verifications;
  }

  // So the hypotheses of the views can be met.
  lemma BrokerIsSound(content: Id, first: Num, second: Num)
    requires Fits(content, first, second)
    ensures ViewsSound(Broker(content, first, second))
  {
    BrokerKeys(content, first, second);
    BrokerRefers(content, first, second);
    BrokerCopies(content, first, second);
    BrokerOwners(content, first, second);
    BrokerIndexCurrent(content, first, second);
    PopulatedIsLast(Broker(content, first, second));
    BrokerLastEntries(content, first, second);
  }
}
