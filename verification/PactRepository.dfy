// The repository that writes pact_publications and its index, table by table.
module PactRepository {
  import opened Basics
  import opened Schema
  import opened Publishing
  import OrderVersions

  // A higher revision than all those of its pact.
  ghost predicate Surpasses(p: Publication, publications: set<Publication>) {
    forall q | q in publications && SamePact(p, q) :: q.revision < p.revision
  }

  ghost predicate Named(pacticipants: set<Pacticipant>, id: Id, name: string) {
    exists c :: c in pacticipants && c.id == id && c.name == name
  }

  ghost predicate NameTaken(pacticipants: set<Pacticipant>, name: string) {
    exists c :: c in pacticipants && c.name == name
  }

  ghost predicate NumberTaken(versions: set<Version>, pacticipantId: Id, number: string) {
    exists v :: v in versions && v.pacticipantId == pacticipantId && v.number == number
  }

  // The unique indexes on names and on the numbers of a pacticipant.
  ghost predicate NamesUnique(pacticipants: set<Pacticipant>) {
    forall c, d | c in pacticipants && d in pacticipants && c.name == d.name :: c == d
  }

  ghost predicate NumbersUnique(versions: set<Version>) {
    forall u, v | u in versions && v in versions && u.pacticipantId == v.pacticipantId && u.number == v.number :: u == v
  }

  // Names, numbers and places are unique, and the next ids are new.
  ghost predicate Numbered(pacticipants: set<Pacticipant>, versions: set<Version>, nextPacticipantId: Id,
                           nextVersionId: Id)
  {
    && NamesUnique(pacticipants) && NumbersUnique(versions) && OrderVersions.PlacesUnique(versions)
    && (forall c | c in pacticipants :: c.id < nextPacticipantId)
    && (forall v | v in versions :: v.id < nextVersionId)
  }

  ghost predicate Prepared(s: PactStore, nextPacticipantId: Id, nextVersionId: Id) {
    Consistent(s) && Numbered(s.pacticipants, s.versions, nextPacticipantId, nextVersionId)
  }

  // Nothing is done when the name is taken; otherwise its pacticipant is added.
  ghost predicate AddsName(s: PactStore, name: string, ops: seq<Operation>) {
    if NameTaken(s.pacticipants, name) then ops == []
    else |ops| == 1 && ops[0].AddPacticipant? && ops[0].c.name == name
  }

  ghost predicate AddsNumber(s: PactStore, pacticipantId: Id, number: string, after: (string, string) -> bool,
                             ops: seq<Operation>)
  {
    if NumberTaken(s.versions, pacticipantId, number) then ops == []
    else
      && |ops| == 1 && ops[0].AddVersion? && ops[0].v.pacticipantId == pacticipantId && ops[0].v.number == number
      && ops[0].ordering.ByNumber? && ops[0].ordering.after == after
  }

  // What finding or creating provider, consumer and version does, in this order.
  datatype Found = Found(provider: seq<Operation>, consumer: seq<Operation>, version: seq<Operation>)

  ghost function Operations(f: Found): seq<Operation> { f.provider + f.consumer + f.version }

  ghost predicate Finds(s: PactStore, f: Found, consumerName: string, providerName: string, consumerId: Id,
                        number: string, after: (string, string) -> bool)
  {
    && AddsName(s, providerName, f.provider) && Runnable(s, f.provider)
    && var s1 := Run(s, f.provider);
       AddsName(s1, consumerName, f.consumer) && Runnable(s1, f.consumer)
       && AddsNumber(Run(s1, f.consumer), consumerId, number, after, f.version)
  }

  class Repository {
    var pacticipants: set<Pacticipant>
    var versions: set<Version>
    var pactVersions: set<PactVersion>
    var publications: set<Publication>
    var lpp: set<LatestPublication>
    var nextPacticipantId: Id
    var nextVersionId: Id
    var nextPactVersionId: Id
    var nextPublicationId: Id

    ghost function Store(): PactStore
      reads this
    {
      PactStore(pacticipants, versions, pactVersions, publications, lpp, nextPactVersionId, nextPublicationId)
    }

    ghost predicate Valid()
      reads this
    {
      Consistent(Store())
    }

    ghost predicate Ready()
      reads this
    {
      Prepared(Store(), nextPacticipantId, nextVersionId)
    }

    constructor ()
      ensures Ready() && Store() == PactStore({}, {}, {}, {}, {}, 0, 0)
    {
      pacticipants, versions, pactVersions, publications, lpp := {}, {}, {}, {}, {};
      nextPacticipantId, nextVersionId, nextPactVersionId, nextPublicationId := 0, 0, 0, 0;
    }

    method FindOrCreatePactVersion(consumerId: Id, providerId: Id, sha: string) returns (id: Id)
      requires PactVersionKeys(pactVersions)
      modifies this`pactVersions, this`nextPactVersionId
      ensures Store() == WithPactVersion(old(Store()), consumerId, providerId, sha)
      ensures id == PactVersionId(old(Store()), consumerId, providerId, sha)
    {
      var found := set pv | pv in pactVersions && HasSha(pv, consumerId, providerId, sha);
      if found != {} {
        var pv :| pv in found;
        id := pv.id;
      } else {
        id := nextPactVersionId;
        pactVersions := pactVersions + {PactVersion(id, consumerId, providerId, sha)};
        nextPactVersionId := nextPactVersionId + 1;
      }
    }

    // Insert, or on a clash of (consumer version, provider, revision) overwrite the
    // row that is there, keeping its id and creation date.
    method UpsertPublication(
      consumerId: Id, versionId: Id, providerId: Id, revision: int, pactVersionId: Id, now: int)
    returns (p: Publication)
      requires forall a, b | a in publications && b in publications && SamePact(a, b) && a.revision == b.revision ::
                 a == b
      modifies this`publications, this`nextPublicationId
      ensures p.consumerVersionId == versionId && p.providerId == providerId && p.revision == revision
      ensures p.consumerId == consumerId && p.pactVersionId == pactVersionId
      ensures (forall q | q in old(publications) && SamePact(p, q) :: q.revision != revision) ==>
                p == Publication(old(nextPublicationId), consumerId, versionId, providerId, revision,
                  pactVersionId, now)
                && publications == old(publications) + {p} && nextPublicationId == old(nextPublicationId) + 1
      ensures forall q | q in old(publications) && SamePact(p, q) && q.revision == revision ::
                p.id == q.id && p.createdAt == q.createdAt
                && publications == old(publications) - {q} + {p} && nextPublicationId == old(nextPublicationId)
    {
      var existing := set q | q in publications
                        && q.consumerVersionId == versionId && q.providerId == providerId && q.revision == revision;
      if existing != {} {
        var q :| q in existing;
        p := q.(consumerId := consumerId, pactVersionId := pactVersionId);
        publications := publications - {q} + {p};
      } else {
        p := Publication(nextPublicationId, consumerId, versionId, providerId, revision, pactVersionId, now);
        publications := publications + {p};
        nextPublicationId := nextPublicationId + 1;
      }
    }

    // Upsert the index row of the publication's pact.
    method UpdateLatestPublicationIds(p: Publication)
      modifies this`lpp
      ensures forall l | l in lpp && OfPact(l, p) :: l == IndexEntry(p)
      ensures IndexEntry(p) in lpp && forall l | !OfPact(l, p) :: l in lpp <==> l in old(lpp)
      ensures Surpasses(p, publications - {p}) && p in publications && old(lpp) == TopEntries(publications - {p})
              ==> lpp == TopEntries(publications)
    {
      ghost var before := lpp;
      var others := set l | l in lpp && !OfPact(l, p);
      lpp := others + {IndexEntry(p)};
      if Surpasses(p, publications - {p}) && p in publications && before == TopEntries(publications - {p}) {
        RaisedIndex(publications - {p}, p);
        assert publications - {p} + {p} == publications;
      }
    }

    // The latest revision of the pact, found through the index.
    method FindByVersionAndProvider(versionId: Id, providerId: Id) returns (found: Option<Publication>)
      requires Valid()
      ensures found == FoundPact(Store(), versionId, providerId)
    {
      var matching := set p | p in publications && IsPublished(lpp, publications, versionId, providerId, p);
      if matching != {} {
        var p :| p in matching;
        FoundIsTop(Store(), versionId, providerId, p);
        FoundPactIs(Store(), versionId, providerId, p);
        found := Some(p);
      } else {
        forall p ensures !IsPublished(lpp, publications, versionId, providerId, p) { assert p !in matching; }
        found := None;
      }
    }

    method FindOrCreatePacticipant(name: string) returns (id: Id, ghost ops: seq<Operation>)
      requires Ready()
      modifies this`pacticipants, this`nextPacticipantId
      ensures Ready() && Named(pacticipants, id, name)
      ensures AddsName(old(Store()), name, ops) && Runnable(old(Store()), ops) && Store() == Run(old(Store()), ops)
      ensures (exists c :: c in old(pacticipants) && c.name == name) ==> pacticipants == old(pacticipants)
      ensures !(exists c :: c in old(pacticipants) && c.name == name) ==>
                pacticipants == old(pacticipants) + {Pacticipant(id, name)}
      ensures exists c :: c in pacticipants && c.id == id && c.name == name
    {
      ghost var s := Store();
      var found := set c | c in pacticipants && c.name == name;
      if found != {} {
        var c :| c in found;
        id, ops := c.id, [];
      } else {
        var c := Pacticipant(nextPacticipantId, name);
        assert forall d | d in pacticipants :: d.name == name ==> d in found;
        pacticipants, nextPacticipantId := pacticipants + {c}, nextPacticipantId + 1;
        id, ops := c.id, [AddPacticipant(c)];
        StepConsistent(s, ops[0]);
        RunOne(s, ops[0]);
      }
    }

    method FindOrCreateVersion(pacticipantId: Id, number: string, after: (string, string) -> bool)
      returns (v: Version, ghost ops: seq<Operation>)
      requires Ready() && Registered(pacticipants, pacticipantId)
      modifies this`versions, this`nextVersionId
      ensures Ready() && v in versions && v.pacticipantId == pacticipantId && v.number == number
      ensures AddsNumber(old(Store()), pacticipantId, number, after, ops)
      ensures Runnable(old(Store()), ops) && Store() == Run(old(Store()), ops)
      ensures (exists u :: u in old(versions) && u.pacticipantId == pacticipantId && u.number == number) ==>
                versions == old(versions)
    {
      var found := set u | u in versions && u.pacticipantId == pacticipantId && u.number == number;
      if found != {} {
        v :| v in found;
        ops := [];
      } else {
        assert forall u | u in versions :: u.pacticipantId == pacticipantId && u.number == number ==> u in found;
        v, ops := CreateVersion(pacticipantId, number, after);
      }
    }

    // A new version is inserted and then given its place.
    method CreateVersion(pacticipantId: Id, number: string, after: (string, string) -> bool)
      returns (v: Version, ghost ops: seq<Operation>)
      requires Ready() && Registered(pacticipants, pacticipantId) && !NumberTaken(versions, pacticipantId, number)
      modifies this`versions, this`nextVersionId
      ensures Ready() && v in versions && v.id == old(nextVersionId)
      ensures v.pacticipantId == pacticipantId && v.number == number
      ensures AddsNumber(old(Store()), pacticipantId, number, after, ops)
      ensures Runnable(old(Store()), ops) && Store() == Run(old(Store()), ops)
    {
      var inserted := Version(nextVersionId, number, pacticipantId, None);
      v, versions, ops := Insert(Store(), nextPacticipantId, versions, inserted, after);
      nextVersionId := nextVersionId + 1;
    }

    // The service's create_or_update_pact.
    method PublishPact(
      consumerName: string, providerName: string, number: string, sha: string, now: int,
      after: (string, string) -> bool)
      returns (v: Version, providerId: Id, ghost found: Found)
      requires Ready()
      modifies this
      ensures Ready() && v in versions && v.number == number
      ensures Named(pacticipants, v.pacticipantId, consumerName) && Named(pacticipants, providerId, providerName)
      ensures Finds(old(Store()), found, consumerName, providerName, v.pacticipantId, number, after)
      ensures var ops := Operations(found) + [Publish(v, providerId, sha, now)];
              Runnable(old(Store()), ops) && Store() == Run(old(Store()), ops)
      ensures old(publications) <= publications && old(pactVersions) <= pactVersions
      ensures forall p | p in publications && p !in old(publications) ::
                p.consumerVersionId == v.id && p.providerId == providerId
      ensures Holds(Store(), v, providerId, sha)
      ensures exists c, d :: c in pacticipants && c.id == v.pacticipantId && c.name == consumerName
                             && d in pacticipants && d.id == providerId && d.name == providerName
      ensures exists p, pv ::
                && p in publications && p.consumerVersionId == v.id && p.providerId == providerId
                && (forall q | q in publications && q.consumerVersionId == v.id && q.providerId == providerId ::
                      q.revision <= p.revision)
                && pv in pactVersions && pv.id == p.pactVersionId && pv.sha == sha
    {
      ghost var s := Store();
      v, providerId, found := FindOrCreateParties(consumerName, providerName, number, after);
      ghost var op := Publish(v, providerId, sha, now);
      RunOne(Store(), op);
      RunConcat(s, Operations(found), [op]);
      PublishedKeeps(Store(), v, providerId, sha, now);
      PublishFound(v, providerId, sha, now);
      HoldsShows(Store(), v, providerId, sha);
    }

    method PublishFound(v: Version, providerId: Id, sha: string, now: int)
      requires Ready() && v in versions && Registered(pacticipants, providerId)
      modifies this`publications, this`pactVersions, this`lpp, this`nextPactVersionId, this`nextPublicationId
      ensures Ready() && Store() == Published(old(Store()), v, providerId, sha, now)
      ensures Holds(Store(), v, providerId, sha)
    {
      PublishedHolds(Store(), v, providerId, sha, now, nextPacticipantId, nextVersionId);
      CreateOrUpdatePact(v, providerId, sha, now);
    }

    method FindOrCreateParties(consumerName: string, providerName: string, number: string,
                               after: (string, string) -> bool)
      returns (v: Version, providerId: Id, ghost found: Found)
      requires Ready()
      modifies this`pacticipants, this`versions, this`nextPacticipantId, this`nextVersionId
      ensures Ready() && v in versions && v.number == number
      ensures Named(pacticipants, v.pacticipantId, consumerName) && Named(pacticipants, providerId, providerName)
      ensures Finds(old(Store()), found, consumerName, providerName, v.pacticipantId, number, after)
      ensures Runnable(old(Store()), Operations(found)) && Store() == Run(old(Store()), Operations(found))
    {
      ghost var s := Store();
      ghost var ops1, ops2, ops3;
      providerId, ops1 := FindOrCreatePacticipant(providerName);
      var consumerId;
      consumerId, ops2 := FindOrCreatePacticipant(consumerName);
      RunConcat(s, ops1, ops2);
      v, ops3 := FindOrCreateVersion(consumerId, number, after);
      RunConcat(s, ops1 + ops2, ops3);
      found := Found(ops1, ops2, ops3);
    }

    method CreateOrUpdatePact(v: Version, providerId: Id, sha: string, now: int)
      requires Valid() && v in versions && Registered(pacticipants, providerId)
      modifies this`publications, this`pactVersions, this`lpp, this`nextPactVersionId, this`nextPublicationId
      ensures Valid() && Store() == Published(old(Store()), v, providerId, sha, now)
    {
      ghost var s := Store();
      var found := FindByVersionAndProvider(v.id, providerId);
      match found {
        case Some(existing) =>
          FoundPactIs(s, v.id, providerId, existing);
          UpdatePact(v, existing, sha, now);
        case None =>
          NothingFound(s, v.id, providerId);
          CreatePact(v, providerId, sha, now);
      }
      assert Store() == Published(s, v, providerId, sha, now);
      PublishedStaysConsistent(s, v, providerId, sha, now);
    }

    method CreatePact(v: Version, providerId: Id, sha: string, now: int)
      requires PublicationKeys(publications) && PactVersionKeys(pactVersions)
      requires forall q | q in publications :: !(q.consumerVersionId == v.id && q.providerId == providerId)
      modifies this`publications, this`pactVersions, this`lpp, this`nextPactVersionId, this`nextPublicationId
      ensures Store() == WithRevision(WithPactVersion(old(Store()), v.pacticipantId, providerId, sha),
                                      NewRevision(old(Store()), v, providerId, sha, 1, now))
    {
      var pactVersionId := FindOrCreatePactVersion(v.pacticipantId, providerId, sha);
      var p := UpsertPublication(v.pacticipantId, v.id, providerId, 1, pactVersionId, now);
      UpdateLatestPublicationIds(p);
    }

    method UpdatePact(v: Version, existing: Publication, sha: string, now: int)
      requires PublicationKeys(publications) && PactVersionKeys(pactVersions)
      requires v.id == existing.consumerVersionId && IsTop(publications, existing)
      modifies this`publications, this`pactVersions, this`lpp, this`nextPactVersionId, this`nextPublicationId
      ensures var s := old(Store());
              var s1 := WithPactVersion(s, v.pacticipantId, existing.providerId, sha);
              Store() == if existing.pactVersionId == PactVersionId(s, v.pacticipantId, existing.providerId, sha)
                         then s1
                         else WithRevision(s1, NewRevision(s, v, existing.providerId, sha, existing.revision + 1, now))
    {
      var pactVersionId := FindOrCreatePactVersion(v.pacticipantId, existing.providerId, sha);
      if existing.pactVersionId != pactVersionId {
        assert forall q | q in publications && SamePact(existing, q) :: q.revision < existing.revision + 1;
        var p := UpsertPublication(v.pacticipantId, v.id, existing.providerId, existing.revision + 1,
          pactVersionId, now);
        UpdateLatestPublicationIds(p);
      }
    }

    // delete from pact_publications where id in ids; index rows cascade.
    method DeletePublications(ids: set<Id>)
      modifies this`publications, this`lpp
      ensures forall p :: p in publications <==> p in old(publications) && p.id !in ids
      ensures forall l :: l in lpp <==> l in old(lpp) && l.publicationId !in ids
      ensures old(Valid()) ==> (Valid() <==> TakesWholePacts(old(Store()), ids))
    {
      ghost var s := Store();
      if Consistent(s) { DeletionIsSafe(s, ids); }
      publications := set p | p in publications && p.id !in ids;
      lpp := set l | l in lpp && l.publicationId !in ids;
    }

    // Deleting the pact resource of a consumer version.
    method DeletePact(versionId: Id, providerId: Id)
      requires Valid()
      modifies this`publications, this`lpp
      ensures Valid() && (old(Ready()) ==> Ready())
      ensures Store() == WithoutPacts(old(Store()), {PactKey(versionId, providerId)})
      ensures publications == set p | p in old(publications)
                && !(p.consumerVersionId == versionId && p.providerId == providerId)
    {
      ghost var pacts := {PactKey(versionId, providerId)};
      ghost var s := Store();
      WholePactsTaken(s, pacts);
      DeletionIsSafe(s, RevisionsOf(s, pacts));
      var ids := set p | p in publications && p.consumerVersionId == versionId && p.providerId == providerId :: p.id;
      assert ids == RevisionsOf(s, pacts);
      DeletePublications(ids);
    }

    // Deleting all pacts between two pacticipants, or only those of tagged versions.
    method DeleteAllBetween(consumerId: Id, providerId: Id, tagged: Option<set<Id>>)
      requires Valid()
      modifies this`publications, this`lpp
      ensures Valid() && (old(Ready()) ==> Ready())
      ensures publications == set p | p in old(publications)
                && !(p.consumerId == consumerId && p.providerId == providerId
                  && (tagged.None? || p.consumerVersionId in tagged.value))
    {
      var doomed := set p | p in publications && p.consumerId == consumerId && p.providerId == providerId
                      && (tagged.None? || p.consumerVersionId in tagged.value);
      ghost var s := Store();
      var ids := set p | p in doomed :: p.id;
      forall p, q | p in doomed && q in publications && SamePact(p, q) ensures q.id in ids {
        assert Placed(s, p) && Placed(s, q);
      }
      forall p | p in publications && p.id in ids ensures p in doomed {}
      assert TakesWholePacts(s, ids);
      DeletionIsSafe(s, ids);
      DeletePublications(ids);
    }

    // Deleting a version deletes its publications first; the index cascades.
    method DeleteVersion(versionId: Id)
      requires Valid()
      modifies this`versions, this`publications, this`lpp
      ensures Valid() && (old(Ready()) ==> Ready())
      ensures Store() == WithoutVersion(old(Store()), versionId)
      ensures publications == set p | p in old(publications) && p.consumerVersionId != versionId
      ensures versions == set v | v in old(versions) && v.id != versionId
    {
      WithoutVersionConsistent(Store(), versionId);
      DeleteByVersion(versionId);
      versions := set v | v in versions && v.id != versionId;
      lpp := set l | l in lpp && l.consumerVersionId != versionId;
    }

    method DeleteByVersion(versionId: Id)
      modifies this`publications, this`lpp
      ensures Store() == WithoutPacts(old(Store()), PactsOfVersion(old(Store()), versionId))
    {
      ghost var s := Store();
      var ids := set p | p in publications && p.consumerVersionId == versionId :: p.id;
      assert ids == RevisionsOf(s, PactsOfVersion(s, versionId));
      DeletePublications(ids);
      ghost var t := WithoutPublications(s, ids);
      assert publications == t.publications && lpp == t.lpp;
    }
  }

  ghost predicate Holds(s: PactStore, v: Version, providerId: Id, sha: string) {
    exists p :: FoundPact(s, v.id, providerId) == Some(p)
      && HoldsVersion(s.pactVersions, p.pactVersionId, v.pacticipantId, providerId, sha)
  }

  lemma HoldsShows(s: PactStore, v: Version, providerId: Id, sha: string)
    requires Consistent(s) && Holds(s, v, providerId, sha)
    ensures exists p, pv ::
              && p in s.publications && p.consumerVersionId == v.id && p.providerId == providerId
              && (forall q | q in s.publications && q.consumerVersionId == v.id && q.providerId == providerId ::
                    q.revision <= p.revision)
              && pv in s.pactVersions && pv.id == p.pactVersionId && pv.sha == sha
  {
    var p :| FoundPact(s, v.id, providerId) == Some(p)
      && HoldsVersion(s.pactVersions, p.pactVersionId, v.pacticipantId, providerId, sha);
    FoundPactIs(s, v.id, providerId, p);
    TopShows(s.publications, p);
    var pv :| pv in s.pactVersions && pv.id == p.pactVersionId && HasSha(pv, v.pacticipantId, providerId, sha);
  }

  lemma PublishedHolds(s: PactStore, v: Version, providerId: Id, sha: string, now: int,
                       nextPacticipantId: Id, nextVersionId: Id)
    requires Prepared(s, nextPacticipantId, nextVersionId) && v in s.versions && Registered(s.pacticipants, providerId)
    ensures var t := Published(s, v, providerId, sha, now);
            Prepared(t, nextPacticipantId, nextVersionId) && Holds(t, v, providerId, sha)
  {
    var p := PublishedServes(s, v, providerId, sha, now);
  }

  // Publishing deletes nothing and adds at most a revision of its pact.
  lemma PublishedKeeps(s: PactStore, v: Version, providerId: Id, sha: string, now: int)
    ensures var t := Published(s, v, providerId, sha, now);
            && s.publications <= t.publications && s.pactVersions <= t.pactVersions
            && forall p | p in t.publications && p !in s.publications ::
                 p.consumerVersionId == v.id && p.providerId == providerId
  {
  }

  lemma RunOne(s: PactStore, op: Operation)
    requires Enabled(s, op)
    ensures Runnable(s, [op]) && Run(s, [op]) == Step(s, op)
  {
    assert [op][1..] == [];
    assert Runnable(Step(s, op), []);
  }

  // The table with the inserted version in its place.
  method Place(versions: set<Version>, v: Version, after: (string, string) -> bool)
    returns (placed: Version, table: set<Version>, ghost list: seq<Id>)
    requires OrderVersions.VersionKeys(versions + {v}) && OrderVersions.PlacesUnique(versions) && v.order.None?
    ensures OrderVersions.Listed(list, OrderVersions.ById(versions + {v}), v.pacticipantId)
    ensures table == OrderVersions.WithVersion(versions, v, list, after)
    ensures placed in table && placed == v.(order := placed.order)
  {
    var rows := versions + {v};
    var byId := map u | u in rows :: u.id := u;
    OrderVersions.ByIdIs(rows);
    assert byId == OrderVersions.ById(rows);
    OrderVersions.NewRowOrders(versions, v);
    var ordered := new OrderVersions.VersionsTable(byId);
    list := ordered.SetSemanticOrder(v.id, after);
    placed := ordered.versions[v.id];
    table := set id | id in ordered.versions :: ordered.versions[id];
  }

  lemma AddedBelow(versions: set<Version>, v: Version, list: seq<Id>, after: (string, string) -> bool)
    requires OrderVersions.VersionKeys(versions + {v}) && (forall u | u in versions :: u.id < v.id)
    requires OrderVersions.Listed(list, OrderVersions.ById(versions + {v}), v.pacticipantId)
    ensures forall w | w in OrderVersions.WithVersion(versions, v, list, after) :: w.id < v.id + 1
  {
    OrderVersions.WithVersionKeeps(versions, v, list, after);
    var placed := OrderVersions.WithVersion(versions, v, list, after);
    forall w | w in placed ensures w.id < v.id + 1 {
      assert OrderVersions.Represented(w, versions + {v});
    }
  }

  lemma AddedNumbers(versions: set<Version>, v: Version, list: seq<Id>, after: (string, string) -> bool)
    requires OrderVersions.VersionKeys(versions + {v}) && NumbersUnique(versions)
    requires !NumberTaken(versions, v.pacticipantId, v.number)
    requires OrderVersions.Listed(list, OrderVersions.ById(versions + {v}), v.pacticipantId)
    ensures NumbersUnique(OrderVersions.WithVersion(versions, v, list, after))
  {
    OrderVersions.WithVersionKeeps(versions, v, list, after);
    assert NumbersUnique(versions + {v});
    SameNumbers(versions + {v}, OrderVersions.WithVersion(versions, v, list, after));
  }

  lemma SameNumbers(versions: set<Version>, placed: set<Version>)
    requires OrderVersions.SameVersions(versions, placed) && NumbersUnique(versions)
    requires OrderVersions.VersionKeys(placed)
    ensures NumbersUnique(placed)
  {
    forall a, b | a in placed && b in placed && a.pacticipantId == b.pacticipantId && a.number == b.number
      ensures a == b
    {
      assert OrderVersions.Represented(a, versions) && OrderVersions.Represented(b, versions);
    }
  }

  // The insertion is a step of the machine, and leaves the store prepared.
  method Insert(ghost s: PactStore, ghost nextPacticipantId: Id, versions: set<Version>, v: Version,
                after: (string, string) -> bool)
    returns (placed: Version, table: set<Version>, ghost ops: seq<Operation>)
    requires Prepared(s, nextPacticipantId, v.id) && s.versions == versions
    requires Registered(s.pacticipants, v.pacticipantId) && v.order.None?
    requires !NumberTaken(versions, v.pacticipantId, v.number)
    ensures placed in table && placed == v.(order := placed.order)
    ensures AddsNumber(s, v.pacticipantId, v.number, after, ops)
    ensures Runnable(s, ops) && Run(s, ops) == s.(versions := table)
    ensures Prepared(s.(versions := table), nextPacticipantId, v.id + 1)
  {
    ghost var list;
    placed, table, list := Place(versions, v, after);
    ops := [AddVersion(v, ByNumber(list, after))];
    AddedRuns(s, v, list, after);
    AddedPrepared(s, nextPacticipantId, v, list, after);
  }

  lemma AddedRuns(s: PactStore, v: Version, list: seq<Id>, after: (string, string) -> bool)
    requires Enabled(s, AddVersion(v, ByNumber(list, after)))
    ensures var op := AddVersion(v, ByNumber(list, after));
            && Runnable(s, [op])
            && Run(s, [op]) == s.(versions := OrderVersions.WithVersion(s.versions, v, list, after))
  {
    RunOne(s, AddVersion(v, ByNumber(list, after)));
  }

  lemma AddedPrepared(s: PactStore, nextPacticipantId: Id, v: Version, list: seq<Id>, after: (string, string) -> bool)
    requires Prepared(s, nextPacticipantId, v.id) && Enabled(s, AddVersion(v, ByNumber(list, after)))
    requires !NumberTaken(s.versions, v.pacticipantId, v.number)
    ensures Prepared(s.(versions := OrderVersions.WithVersion(s.versions, v, list, after)), nextPacticipantId, v.id + 1)
  {
    AddVersionConsistent(s, v, ByNumber(list, after));
    AddedNumbered(s.pacticipants, s.versions, nextPacticipantId, v, list, after);
  }

  lemma AddedNumbered(pacticipants: set<Pacticipant>, versions: set<Version>, nextPacticipantId: Id, v: Version,
                      list: seq<Id>, after: (string, string) -> bool)
    requires Numbered(pacticipants, versions, nextPacticipantId, v.id) && OrderVersions.VersionKeys(versions)
    requires v.order.None? && !NumberTaken(versions, v.pacticipantId, v.number)
    requires OrderVersions.Listed(list, OrderVersions.ById(versions + {v}), v.pacticipantId)
    ensures Numbered(pacticipants, OrderVersions.WithVersion(versions, v, list, after), nextPacticipantId, v.id + 1)
  {
    OrderVersions.WithVersionOrdered(versions, v, list, after);
    AddedBelow(versions, v, list, after);
    AddedNumbers(versions, v, list, after);
  }
}
