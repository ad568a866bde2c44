// Three migrations that turn a table of pacts with their JSON inline into pact
// versions, stored once per digest, and publications that refer to them.
module Normalisation {
  import opened Basics
  import opened Sql
  import opened Schema

  datatype Pact = Pact(
    id: Id, versionId: Id, providerId: Id, json: string, sha: Option<string>, createdAt: int, updatedAt: int)

  datatype Content = Content(sha: string, content: string, createdAt: int, updatedAt: int)

  datatype StoredVersion = StoredVersion(
    id: Id, consumerId: Num, providerId: Num, sha: string, content: string, createdAt: int)

  datatype FirstPublication = FirstPublication(
    id: Id, consumerVersionId: Id, providerId: Id, revision: int, pactVersionId: Id, createdAt: int)

  ghost predicate PactKeys(pacts: set<Pact>) {
    && (forall p, q | p in pacts && q in pacts && p.id == q.id :: p == q)
    && (forall p, q | p in pacts && q in pacts && p.versionId == q.versionId && p.providerId == q.providerId :: p == q)
  }

  // The consumer of a pact, through its version.
  ghost predicate HasConsumer(versions: set<Version>, p: Pact, consumerId: Id) {
    exists v :: v in versions && v.id == p.versionId && v.pacticipantId == consumerId
  }

  ghost predicate VersionsKeyed(versions: set<Version>) {
    forall a, b | a in versions && b in versions && a.id == b.id :: a == b
  }

  ghost predicate ShasUnique(contents: set<Content>) {
    forall c, d | c in contents && d in contents && c.sha == d.sha :: c == d
  }

  ghost function Stamped(p: Pact, digest: string -> string): Pact { p.(sha := Some(digest(p.json))) }

  ghost predicate Stores(contents: set<Content>, sha: string) {
    exists c :: c in contents && c.sha == sha
  }

  ghost predicate TakenFrom(pacts: set<Pact>, digest: string -> string, c: Content) {
    exists p :: p in pacts && c == Content(digest(p.json), p.json, p.createdAt, p.updatedAt)
  }

  // 000017: contents hold one row for each digest, taken from a pact that has it.
  ghost predicate Moved(before: set<Content>, pacts: set<Pact>, digest: string -> string, after: set<Content>) {
    && before <= after && ShasUnique(after)
    && (forall p {:trigger Stores(after, digest(p.json))} | p in pacts :: Stores(after, digest(p.json)))
    && (forall c {:trigger TakenFrom(pacts, digest, c)} | c in after && c !in before :: TakenFrom(pacts, digest, c))
  }

  // A pact version row filled in from pacts that have its digest. The consumer and
  // the provider are looked up separately, each from whichever pact comes first.
  ghost predicate FilledIn(versions: set<Version>, pacts: set<Pact>, v: StoredVersion) {
    && v.consumerId.Some? && v.providerId.Some?
    && ConsumerFound(versions, pacts, v.sha, v.consumerId.value)
    && ProviderFound(pacts, v.sha, v.providerId.value)
  }

  ghost predicate CopiedFrom(contents: set<Content>, v: StoredVersion) {
    exists c :: c in contents && v.sha == c.sha && v.content == c.content && v.createdAt == c.createdAt
  }

  ghost predicate HoldsSha(stored: set<StoredVersion>, sha: string) {
    exists v :: v in stored && v.sha == sha
  }

  ghost predicate HasVersion(stored: set<StoredVersion>, p: Pact) {
    p.sha.Some? && HoldsSha(stored, p.sha.value)
  }

  // 000024: the digests that pacts refer to become pact versions, and no others do.
  ghost predicate Versioned(versions: set<Version>, pacts: set<Pact>, contents: set<Content>,
                            stored: set<StoredVersion>)
  {
    && (forall a, b | a in stored && b in stored && (a.id == b.id || a.sha == b.sha) :: a == b)
    && (forall v {:trigger FilledIn(versions, pacts, v)} | v in stored :: FilledIn(versions, pacts, v))
    && (forall v {:trigger CopiedFrom(contents, v)} | v in stored :: CopiedFrom(contents, v))
    && (forall p {:trigger HasVersion(stored, p)} | p in pacts :: HasVersion(stored, p))
  }

  // The foreign key of pacts to contents.
  ghost predicate HasContent(contents: set<Content>, p: Pact) {
    exists c :: c in contents && p.sha == Some(c.sha)
  }

  function WithConsumer(v: StoredVersion, consumers: map<string, Id>): StoredVersion {
    v.(consumerId := if v.sha in consumers then Some(consumers[v.sha]) else None)
  }

  function WithProvider(v: StoredVersion, providers: map<string, Id>): StoredVersion {
    v.(providerId := if v.sha in providers then Some(providers[v.sha]) else None)
  }

  // The rows after both updates and the delete.
  ghost function Completed(
    inserted: set<StoredVersion>, consumers: map<string, Id>, providers: map<string, Id>): set<StoredVersion>
  {
    set w | w in inserted && WithConsumer(w, consumers).consumerId.Some? ::
      WithProvider(WithConsumer(w, consumers), providers)
  }

  ghost predicate ConsumerFound(versions: set<Version>, pacts: set<Pact>, sha: string, consumerId: Id) {
    exists p :: p in pacts && p.sha == Some(sha) && HasConsumer(versions, p, consumerId)
  }

  ghost predicate ProviderFound(pacts: set<Pact>, sha: string, providerId: Id) {
    exists p :: p in pacts && p.sha == Some(sha) && p.providerId == providerId
  }

  // q publishes p as revision 1.
  ghost predicate Publishes(stored: set<StoredVersion>, p: Pact, q: FirstPublication) {
    && q.consumerVersionId == p.versionId && q.providerId == p.providerId && q.revision == 1
      && q.createdAt == p.updatedAt
    && exists v :: v in stored && v.id == q.pactVersionId && Some(v.sha) == p.sha
  }

  ghost predicate HasPublication(stored: set<StoredVersion>, publications: set<FirstPublication>, p: Pact) {
    exists q :: q in publications && Publishes(stored, p, q)
  }

  ghost predicate HasPact(pacts: set<Pact>, stored: set<StoredVersion>, q: FirstPublication) {
    exists p :: p in pacts && Publishes(stored, p, q)
  }

  // 000027: publications and pacts are in one-to-one correspondence.
  ghost predicate PublishedOnce(pacts: set<Pact>, stored: set<StoredVersion>, publications: set<FirstPublication>) {
    && (forall q, r | q in publications && r in publications &&
          (q.id == r.id || (q.consumerVersionId == r.consumerVersionId && q.providerId == r.providerId)) :: q == r)
    && (forall p {:trigger HasPublication(stored, publications, p)} | p in pacts ::
      HasPublication(stored, publications, p))
    && (forall q {:trigger HasPact(pacts, stored, q)} | q in publications :: HasPact(pacts, stored, q))
  }

  class Migrator {
    const digest: string -> string
    const versions: set<Version>
    var pacts: set<Pact>
    var contents: set<Content>
    var stored: set<StoredVersion>
    var publications: set<FirstPublication>
    var nextId: Id

    constructor (digest: string -> string, versions: set<Version>, pacts: set<Pact>)
      ensures this.digest == digest && this.versions == versions && this.pacts == pacts
      ensures contents == {} && stored == {} && publications == {} && nextId == 0
    {
      this.digest, this.versions, this.pacts := digest, versions, pacts;
      contents, stored, publications, nextId := {}, {}, {}, 0;
    }

    // 000017_migrate_json_content_to_pact_version_content_table
    method MoveContents()
      requires PactKeys(pacts) && ShasUnique(contents)
      modifies this`pacts, this`contents
      ensures pacts == set p | p in old(pacts) :: Stamped(p, digest)
      ensures Moved(old(contents), old(pacts), digest, contents)
    {
      var rows := pacts;
      var remaining := rows;
      ghost var done: set<Pact> := {};
      while remaining != {}
        invariant rows == done + remaining && done !! remaining
        invariant pacts == remaining + set p | p in done :: Stamped(p, digest)
        invariant Moved(old(contents), done, digest, contents)
        decreases remaining
      {
        var row :| row in remaining;
        var sha := digest(row.json);
        ghost var before := contents;
        if !exists c :: c in contents && c.sha == sha {
          contents := contents + {Content(sha, row.json, row.createdAt, row.updatedAt)};
          assert Content(sha, row.json, row.createdAt, row.updatedAt) in contents;
        }
        assert Stores(contents, sha);
        MovedOneMore(old(contents), done, digest, before, row, contents);
        var matching := set p | p in pacts && p.id == row.id;
        var updated := set p | p in matching :: p.(sha := Some(sha));
        Update(row, matching, updated, remaining, done);
        pacts := pacts - matching + updated;
        remaining := remaining - {row};
        done := done + {row};
      }
    }

    // Only the row itself bears its id.
    lemma Update(row: Pact, matching: set<Pact>, updated: set<Pact>, remaining: set<Pact>, done: set<Pact>)
      requires PactKeys(done + remaining) && row in remaining && done !! remaining
      requires matching == set p | p in remaining + (set q | q in done :: Stamped(q, digest)) && p.id == row.id
      requires updated == set p | p in matching :: p.(sha := Some(digest(row.json)))
      ensures matching == {row} && updated == {Stamped(row, digest)}
      ensures (remaining + set q | q in done :: Stamped(q, digest)) - matching + updated
           == (remaining - {row}) + set q | q in done + {row} :: Stamped(q, digest)
    {
      forall q | q in done ensures Stamped(q, digest).id != row.id {
        assert q.id == row.id ==> q == row;
      }
      assert forall p | p in matching :: p == row;
      assert row in matching;
      assert forall q | q in done :: Stamped(q, digest) != row;
    }

    // 000024_populate_pact_versions: insert, two updates and a delete
    method PopulatePactVersions()
      requires stored == {} && ShasUnique(contents) && VersionsKeyed(versions)
      requires forall p {:trigger HasContent(contents, p)} | p in pacts :: HasContent(contents, p)
      requires forall p | p in pacts :: exists v :: v in versions && v.id == p.versionId
      modifies this`stored, this`nextId
      ensures Versioned(versions, pacts, contents, stored)
    {
      InsertContents();
      ghost var inserted := stored;
      var consumers := FirstConsumers();
      var providers := FirstProviders();
      FillIn(consumers, providers);
      RowsFilledIn(versions, pacts, contents, inserted, consumers, providers);
      RowsKept(pacts, contents, inserted, consumers, providers);
    }

    method FillIn(consumers: map<string, Id>, providers: map<string, Id>)
      modifies this`stored
      ensures stored == Completed(old(stored), consumers, providers)
    {
      stored := set v | v in stored :: WithConsumer(v, consumers);
      stored := set v | v in stored :: WithProvider(v, providers);
      stored := set v | v in stored && v.consumerId.Some?;
    }

    method InsertContents()
      requires stored == {} && ShasUnique(contents)
      modifies this`stored, this`nextId
      ensures forall a, b | a in stored && b in stored && (a.id == b.id || a.sha == b.sha) :: a == b
      ensures forall v {:trigger CopiedFrom(contents, v)} | v in stored :: CopiedFrom(contents, v)
      ensures forall c {:trigger HoldsSha(stored, c.sha)} | c in contents :: HoldsSha(stored, c.sha)
    {
      var remaining := contents;
      while remaining != {}
        invariant remaining <= contents
        invariant forall v {:trigger CopiedFrom(contents - remaining, v)} | v in stored ::
                    CopiedFrom(contents - remaining, v)
        invariant forall v | v in stored :: v.id < nextId
        invariant forall a, b | a in stored && b in stored && (a.id == b.id || a.sha == b.sha) :: a == b
        invariant forall c {:trigger HoldsSha(stored, c.sha)} | c in contents - remaining :: HoldsSha(stored, c.sha)
        decreases remaining
      {
        var c :| c in remaining;
        var row := StoredVersion(nextId, None, None, c.sha, c.content, c.createdAt);
        InsertOneMore(contents - remaining, c, stored, row);
        assert contents - (remaining - {c}) == (contents - remaining) + {c};
        stored := stored + {row};
        nextId := nextId + 1;
        remaining := remaining - {c};
      }
      assert contents - remaining == contents;
    }

    // For each digest the consumer of some pact that has it: the first update's subquery.
    method FirstConsumers() returns (m: map<string, Id>)
      requires forall p | p in pacts :: exists v :: v in versions && v.id == p.versionId
      ensures forall sha | sha in m :: ConsumerFound(versions, pacts, sha, m[sha])
      ensures forall p | p in pacts && p.sha.Some? :: p.sha.value in m
    {
      m := map[];
      var remaining := pacts;
      while remaining != {}
        invariant remaining <= pacts
        invariant forall sha | sha in m :: ConsumerFound(versions, pacts, sha, m[sha])
        invariant forall p | p in pacts - remaining && p.sha.Some? :: p.sha.value in m
        decreases remaining
      {
        var p :| p in remaining;
        if p.sha.Some? && p.sha.value !in m {
          var v :| v in versions && v.id == p.versionId;
          assert HasConsumer(versions, p, v.pacticipantId);
          m := m[p.sha.value := v.pacticipantId];
        }
        remaining := remaining - {p};
      }
    }

    // For each digest the provider of some pact that has it, found independently.
    method FirstProviders() returns (m: map<string, Id>)
      ensures forall sha | sha in m :: ProviderFound(pacts, sha, m[sha])
      ensures forall p | p in pacts && p.sha.Some? :: p.sha.value in m
    {
      m := map[];
      var remaining := pacts;
      while remaining != {}
        invariant remaining <= pacts
        invariant forall sha | sha in m :: ProviderFound(pacts, sha, m[sha])
        invariant forall p | p in pacts - remaining && p.sha.Some? :: p.sha.value in m
        decreases remaining
      {
        var p :| p in remaining;
        if p.sha.Some? && p.sha.value !in m {
          m := m[p.sha.value := p.providerId];
        }
        remaining := remaining - {p};
      }
    }

    // 000027_populate_pact_publications
    method PopulatePublications()
      requires publications == {} && PactKeys(pacts) && Versioned(versions, pacts, contents, stored)
      modifies this`publications, this`nextId
      ensures PublishedOnce(pacts, stored, publications)
    {
      var remaining := pacts;
      while remaining != {}
        invariant remaining <= pacts
        invariant forall q | q in publications :: q.id < nextId
        invariant PublishedOnce(pacts - remaining, stored, publications)
        decreases remaining
      {
        var p :| p in remaining;
        assert HasVersion(stored, p);
        var v :| v in stored && Some(v.sha) == p.sha;
        var q := FirstPublication(nextId, p.versionId, p.providerId, 1, v.id, p.updatedAt);
        assert Publishes(stored, p, q);
        forall r | r in publications ensures !(r.consumerVersionId == p.versionId && r.providerId == p.providerId) {
          assert HasPact(pacts - remaining, stored, r);
          var o :| o in pacts - remaining && Publishes(stored, o, r);
        }
        PublishOneMore(pacts - remaining, p, stored, publications, q);
        assert pacts - (remaining - {p}) == (pacts - remaining) + {p};
        publications := publications + {q};
        nextId := nextId + 1;
        remaining := remaining - {p};
      }
      assert pacts - remaining == pacts;
    }
  }

  lemma MovedOneMore(
      first: set<Content>, done: set<Pact>, digest: string -> string, before: set<Content>, row: Pact,
      after: set<Content>)
    requires Moved(first, done, digest, before) && before <= after && ShasUnique(after)
    requires Stores(after, digest(row.json))
    requires after <= before + {Content(digest(row.json), row.json, row.createdAt, row.updatedAt)}
    ensures Moved(first, done + {row}, digest, after)
  {
    forall p {:trigger Stores(after, digest(p.json))} | p in done + {row} ensures Stores(after, digest(p.json)) {
      if p != row {
        assert Stores(before, digest(p.json));
        var c :| c in before && c.sha == digest(p.json);
        assert c in after;
      }
    }
    forall c {:trigger TakenFrom(done + {row}, digest, c)} | c in after && c !in first
      ensures TakenFrom(done + {row}, digest, c)
    {
      if c in before {
        assert TakenFrom(done, digest, c);
        var p :| p in done && c == Content(digest(p.json), p.json, p.createdAt, p.updatedAt);
        assert p in done + {row};
      } else {
        assert row in done + {row};
      }
    }
  }

  lemma InsertOneMore(done: set<Content>, c: Content, stored: set<StoredVersion>, row: StoredVersion)
    requires ShasUnique(done + {c}) && c !in done
    requires row.sha == c.sha && row.content == c.content && row.createdAt == c.createdAt
    requires forall v {:trigger CopiedFrom(done, v)} | v in stored :: CopiedFrom(done, v)
    requires forall d {:trigger HoldsSha(stored, d.sha)} | d in done :: HoldsSha(stored, d.sha)
    ensures forall v | v in stored :: v.sha != row.sha
    ensures forall v {:trigger CopiedFrom(done + {c}, v)} | v in stored + {row} :: CopiedFrom(done + {c}, v)
    ensures forall d {:trigger HoldsSha(stored + {row}, d.sha)} | d in done + {c} :: HoldsSha(stored + {row}, d.sha)
  {
    forall v | v in stored + {row} ensures CopiedFrom(done + {c}, v) && (v in stored ==> v.sha != row.sha) {
      if v in stored {
        assert CopiedFrom(done, v);
        var d :| d in done && v.sha == d.sha && v.content == d.content && v.createdAt == d.createdAt;
        assert d in done + {c} && c in done + {c};
      } else {
        assert c in done + {c};
      }
    }
    forall d | d in done + {c} ensures HoldsSha(stored + {row}, d.sha) {
      if d == c {
        assert row in stored + {row};
      } else {
        assert HoldsSha(stored, d.sha);
        var v :| v in stored && v.sha == d.sha;
        assert v in stored + {row};
      }
    }
  }

  // The two updates copy ids from pacts with the row's digest, and the delete keeps
  // only rows that had one.
  lemma RowsFilledIn(
      versions: set<Version>, pacts: set<Pact>, contents: set<Content>, inserted: set<StoredVersion>,
      consumers: map<string, Id>, providers: map<string, Id>)
    requires forall v {:trigger CopiedFrom(contents, v)} | v in inserted :: CopiedFrom(contents, v)
    requires forall a, b | a in inserted && b in inserted && (a.id == b.id || a.sha == b.sha) :: a == b
    requires forall sha | sha in consumers :: ConsumerFound(versions, pacts, sha, consumers[sha])
    requires forall sha | sha in providers :: ProviderFound(pacts, sha, providers[sha])
    requires forall p | p in pacts && p.sha.Some? :: p.sha.value in providers
    ensures var stored := Completed(inserted, consumers, providers);
            && (forall v {:trigger FilledIn(versions, pacts, v)} | v in stored :: FilledIn(versions, pacts, v))
            && (forall v {:trigger CopiedFrom(contents, v)} | v in stored :: CopiedFrom(contents, v))
            && (forall a, b | a in stored && b in stored && (a.id == b.id || a.sha == b.sha) :: a == b)
  {
    forall v | v in Completed(inserted, consumers, providers)
      ensures FilledIn(versions, pacts, v) && CopiedFrom(contents, v)
    {
      var w :| w in inserted && v == WithProvider(WithConsumer(w, consumers), providers);
      assert CopiedFrom(contents, w);
      assert v == WithProvider(WithConsumer(w, consumers), providers);
      assert ConsumerFound(versions, pacts, v.sha, v.consumerId.value);
    }
  }

  // A content that a pact refers to keeps its row.
  lemma RowsKept(
      pacts: set<Pact>, contents: set<Content>, inserted: set<StoredVersion>,
      consumers: map<string, Id>, providers: map<string, Id>)
    requires forall p {:trigger HasContent(contents, p)} | p in pacts :: HasContent(contents, p)
    requires forall c {:trigger HoldsSha(inserted, c.sha)} | c in contents :: HoldsSha(inserted, c.sha)
    requires forall p | p in pacts && p.sha.Some? :: p.sha.value in consumers
    ensures forall p {:trigger HasVersion(Completed(inserted, consumers, providers), p)} | p in pacts ::
              HasVersion(Completed(inserted, consumers, providers), p)
  {
    var stored := Completed(inserted, consumers, providers);
    forall p | p in pacts ensures HasVersion(stored, p) {
      assert HasContent(contents, p);
      var c :| c in contents && p.sha == Some(c.sha);
      assert HoldsSha(inserted, c.sha);
      var w :| w in inserted && w.sha == c.sha;
      assert WithProvider(WithConsumer(w, consumers), providers) in stored;
    }
  }

  lemma PublishOneMore(
      done: set<Pact>, p: Pact, stored: set<StoredVersion>, publications: set<FirstPublication>, q: FirstPublication)
    requires PublishedOnce(done, stored, publications) && Publishes(stored, p, q)
    requires forall r | r in publications ::
      r.id != q.id && !(r.consumerVersionId == q.consumerVersionId && r.providerId == q.providerId)
    ensures PublishedOnce(done + {p}, stored, publications + {q})
  {
    forall o {:trigger HasPublication(stored, publications + {q}, o)} | o in done + {p}
      ensures HasPublication(stored, publications + {q}, o)
    {
      StillPublished(done, p, stored, publications, q, o);
    }
    forall r {:trigger HasPact(done + {p}, stored, r)} | r in publications + {q}
      ensures HasPact(done + {p}, stored, r)
    {
      StillFromPact(done, p, stored, publications, q, r);
    }
  }

  lemma StillPublished(
      done: set<Pact>, p: Pact, stored: set<StoredVersion>, publications: set<FirstPublication>, q: FirstPublication,
      o: Pact)
    requires PublishedOnce(done, stored, publications) && Publishes(stored, p, q) && o in done + {p}
    ensures HasPublication(stored, publications + {q}, o)
  {
    if o == p {
      assert q in publications + {q};
    } else {
      assert HasPublication(stored, publications, o);
      var r :| r in publications && Publishes(stored, o, r);
      assert r in publications + {q};
    }
  }

  lemma StillFromPact(
      done: set<Pact>, p: Pact, stored: set<StoredVersion>, publications: set<FirstPublication>, q: FirstPublication,
      r: FirstPublication)
    requires PublishedOnce(done, stored, publications) && Publishes(stored, p, q) && r in publications + {q}
    ensures HasPact(done + {p}, stored, r)
  {
    if r == q {
      assert p in done + {p};
    } else {
      assert HasPact(done, stored, r);
      var o :| o in done && Publishes(stored, o, r);
      assert o in done + {p};
    }
  }

  // The three migrations in order. 000018 drops the JSON column in between.
  method Migrate(digest: string -> string, versions: set<Version>, pacts: set<Pact>) returns (m: Migrator)
    requires PactKeys(pacts) && VersionsKeyed(versions)
    requires forall p | p in pacts :: exists v :: v in versions && v.id == p.versionId
    ensures fresh(m) && Migrated(digest, versions, pacts, m.stored, m.publications)
  {
    m := new Migrator(digest, versions, pacts);
    m.MoveContents();
    StampedHaveContent(pacts, digest, m.contents);
    m.PopulatePactVersions();
    m.PopulatePublications();
  }

  lemma StampedHaveContent(pacts: set<Pact>, digest: string -> string, contents: set<Content>)
    requires PactKeys(pacts) && Moved({}, pacts, digest, contents)
    ensures var stamped := set p | p in pacts :: Stamped(p, digest);
            PactKeys(stamped) && forall p {:trigger HasContent(contents, p)} | p in stamped :: HasContent(contents, p)
  {
    var stamped := set p | p in pacts :: Stamped(p, digest);
    forall p {:trigger HasContent(contents, p)} | p in stamped ensures HasContent(contents, p) {
      var o :| o in pacts && p == Stamped(o, digest);
      assert Stores(contents, digest(o.json));
    }
  }

  // The state the three migrations leave.
  ghost predicate Migrated(
    digest: string -> string, versions: set<Version>, pacts: set<Pact>,
    stored: set<StoredVersion>, publications: set<FirstPublication>)
  {
    exists contents ::
      var stamped := set p | p in pacts :: Stamped(p, digest);
      && Moved({}, pacts, digest, contents)
      && Versioned(versions, stamped, contents, stored)
      && PublishedOnce(stamped, stored, publications)
  }

  ghost predicate NoCollision(pacts: set<Pact>, digest: string -> string) {
    forall p, q | p in pacts && q in pacts && digest(p.json) == digest(q.json) :: p.json == q.json
  }

  // The row that the publication of p refers to.
  ghost predicate PublishedAs(stored: set<StoredVersion>, publications: set<FirstPublication>, p: Pact,
                              v: StoredVersion)
  {
    && v in stored
    && exists q ::
         && q in publications && q.consumerVersionId == p.versionId && q.providerId == p.providerId
         && q.revision == 1 && q.pactVersionId == v.id
  }

  // Every pact is published as exactly one pact version, the row of its digest.
  lemma PublishedAsDigest(
      digest: string -> string, versions: set<Version>, pacts: set<Pact>,
      stored: set<StoredVersion>, publications: set<FirstPublication>, p: Pact) returns (v: StoredVersion, source: Pact)
    requires Migrated(digest, versions, pacts, stored, publications) && p in pacts
    ensures v in stored && v.sha == digest(p.json)
    ensures forall w | w in stored && w.sha == v.sha :: w == v
    ensures forall w :: PublishedAs(stored, publications, p, w) <==> w == v
    ensures source in pacts && v.sha == digest(source.json) && v.content == source.json
  {
    var stamped := set o | o in pacts :: Stamped(o, digest);
    var contents: set<Content> :| Moved({}, pacts, digest, contents) && Versioned(versions, stamped, contents, stored)
      && PublishedOnce(stamped, stored, publications);
    var s := Stamped(p, digest);
    assert s in stamped && HasPublication(stored, publications, s);
    var q :| q in publications && Publishes(stored, s, q);
    v :| v in stored && v.id == q.pactVersionId && Some(v.sha) == s.sha;
    assert CopiedFrom(contents, v);
    var c :| c in contents && v.sha == c.sha && v.content == c.content && v.createdAt == c.createdAt;
    assert TakenFrom(pacts, digest, c);
    source :| source in pacts && c == Content(digest(source.json), source.json, source.createdAt, source.updatedAt);
  }

  // In the columns: the publication of a pact is its first revision, dated by its last
  // update, and its pact version has the digest of its JSON, and the content and the date
  // of creation of one pact with that digest.
  lemma MigratedColumns(
      digest: string -> string, versions: set<Version>, pacts: set<Pact>,
      stored: set<StoredVersion>, publications: set<FirstPublication>, p: Pact)
    returns (q: FirstPublication, v: StoredVersion, source: Pact)
    requires Migrated(digest, versions, pacts, stored, publications) && p in pacts
    ensures q in publications && q.consumerVersionId == p.versionId && q.providerId == p.providerId
    ensures q.revision == 1 && q.createdAt == p.updatedAt && q.pactVersionId == v.id
    ensures v in stored && v.sha == digest(p.json)
    ensures source in pacts && digest(source.json) == v.sha && v.content == source.json
    ensures v.createdAt == source.createdAt
  {
    var stamped := set o | o in pacts :: Stamped(o, digest);
    var contents: set<Content> :| Moved({}, pacts, digest, contents) && Versioned(versions, stamped, contents, stored)
      && PublishedOnce(stamped, stored, publications);
    var s := Stamped(p, digest);
    assert s in stamped && HasPublication(stored, publications, s);
    q :| q in publications && Publishes(stored, s, q);
    v :| v in stored && v.id == q.pactVersionId && Some(v.sha) == s.sha;
    assert CopiedFrom(contents, v);
    var c :| c in contents && v.sha == c.sha && v.content == c.content && v.createdAt == c.createdAt;
    assert TakenFrom(pacts, digest, c);
    source :| source in pacts && c == Content(digest(source.json), source.json, source.createdAt, source.updatedAt);
  }

  // The migrations keep every pact's content exactly when no two different contents
  // have the same digest.
  lemma LosslessWithoutCollision(
      digest: string -> string, versions: set<Version>, pacts: set<Pact>,
      stored: set<StoredVersion>, publications: set<FirstPublication>)
    requires Migrated(digest, versions, pacts, stored, publications)
    ensures (forall p, v | p in pacts && PublishedAs(stored, publications, p, v) :: v.content == p.json)
       <==> NoCollision(pacts, digest)
  {
    forall p, v | p in pacts && PublishedAs(stored, publications, p, v) && NoCollision(pacts, digest)
      ensures v.content == p.json
    {
      var w, source := PublishedAsDigest(digest, versions, pacts, stored, publications, p);
      assert w == v;
    }
    if forall p, v | p in pacts && PublishedAs(stored, publications, p, v) :: v.content == p.json {
      forall p, q | p in pacts && q in pacts && digest(p.json) == digest(q.json) ensures p.json == q.json {
        var v, _ := PublishedAsDigest(digest, versions, pacts, stored, publications, p);
        var w, _ := PublishedAsDigest(digest, versions, pacts, stored, publications, q);
        assert v == w && PublishedAs(stored, publications, p, v) && PublishedAs(stored, publications, q, v);
      }
    }
  }

  ghost predicate BelongsTo(versions: set<Version>, v: StoredVersion, p: Pact) {
    v.consumerId.Some? && HasConsumer(versions, p, v.consumerId.value) && v.providerId == Some(p.providerId)
  }

  // Pacts with the same digest come from the same consumer and provider.
  ghost predicate DigestsOwned(versions: set<Version>, pacts: set<Pact>, digest: string -> string) {
    forall p, q | p in pacts && q in pacts && digest(p.json) == digest(q.json) ::
      p.providerId == q.providerId && forall c :: HasConsumer(versions, p, c) ==> HasConsumer(versions, q, c)
  }

  lemma FilledInFrom(
      digest: string -> string, versions: set<Version>, pacts: set<Pact>,
      stored: set<StoredVersion>, publications: set<FirstPublication>, v: StoredVersion) returns (p: Pact, q: Pact)
    requires Migrated(digest, versions, pacts, stored, publications) && v in stored
    ensures v.consumerId.Some? && p in pacts && digest(p.json) == v.sha && HasConsumer(versions, p, v.consumerId.value)
    ensures q in pacts && digest(q.json) == v.sha && v.providerId == Some(q.providerId)
  {
    var stamped := set o | o in pacts :: Stamped(o, digest);
    var contents: set<Content> :| Moved({}, pacts, digest, contents) && Versioned(versions, stamped, contents, stored)
      && PublishedOnce(stamped, stored, publications);
    assert FilledIn(versions, stamped, v);
    var s :| s in stamped && s.sha == Some(v.sha) && HasConsumer(versions, s, v.consumerId.value);
    p :| p in pacts && s == Stamped(p, digest);
    var t :| t in stamped && t.sha == Some(v.sha) && t.providerId == v.providerId.value;
    q :| q in pacts && t == Stamped(q, digest);
  }

  // But a pact version has one owner: a publication refers to a pact version of its
  // own consumer and provider exactly when no other pair shares its content.
  lemma OwnersKeptUnlessShared(
      digest: string -> string, versions: set<Version>, pacts: set<Pact>,
      stored: set<StoredVersion>, publications: set<FirstPublication>)
    requires Migrated(digest, versions, pacts, stored, publications) && VersionsKeyed(versions)
    ensures (forall p, v | p in pacts && PublishedAs(stored, publications, p, v) :: BelongsTo(versions, v, p))
       <==> DigestsOwned(versions, pacts, digest)
  {
    forall p, v | p in pacts && PublishedAs(stored, publications, p, v) && DigestsOwned(versions, pacts, digest)
      ensures BelongsTo(versions, v, p)
    {
      var w, _ := PublishedAsDigest(digest, versions, pacts, stored, publications, p);
      var a, b := FilledInFrom(digest, versions, pacts, stored, publications, v);
    }
    if forall p, v | p in pacts && PublishedAs(stored, publications, p, v) :: BelongsTo(versions, v, p) {
      forall p, q | p in pacts && q in pacts && digest(p.json) == digest(q.json)
        ensures p.providerId == q.providerId && forall c :: HasConsumer(versions, p, c) ==> HasConsumer(versions, q, c)
      {
        var v, _ := PublishedAsDigest(digest, versions, pacts, stored, publications, p);
        var w, _ := PublishedAsDigest(digest, versions, pacts, stored, publications, q);
        assert v == w && PublishedAs(stored, publications, p, v) && PublishedAs(stored, publications, q, v);
        OneConsumer(versions, p, v.consumerId.value);
      }
    }
  }

  // The tables that the views read, after 20180616 has copied the consumer of each
  // publication's version.
  ghost predicate Tables(db: Database, versions: set<Version>, stored: set<StoredVersion>,
                         publications: set<FirstPublication>)
  {
    && db.versions == versions
    && db.pactVersions == (set v | v in stored && v.consumerId.Some? && v.providerId.Some? ::
      PactVersion(v.id, v.consumerId.value, v.providerId.value, v.sha))
    && db.publications == (set q, v | q in publications && v in versions && v.id == q.consumerVersionId ::
      Publication(q.id, v.pacticipantId, v.id, q.providerId, q.revision, q.pactVersionId, q.createdAt))
  }

  // So what the views assume of the owners of pact versions holds of the migrated
  // tables exactly when no other pair shares a content.
  lemma MigratedOwners(
      digest: string -> string, versions: set<Version>, pacts: set<Pact>,
      stored: set<StoredVersion>, publications: set<FirstPublication>, db: Database)
    requires Migrated(digest, versions, pacts, stored, publications) && VersionsKeyed(versions)
    requires forall p | p in pacts :: exists v :: v in versions && v.id == p.versionId
    requires Tables(db, versions, stored, publications)
    ensures PactVersionsOwned(db) <==> DigestsOwned(versions, pacts, digest)
  {
    OwnersKeptUnlessShared(digest, versions, pacts, stored, publications);
    if DigestsOwned(versions, pacts, digest) {
      forall p {:trigger PublicationOwned(db, p)} | p in db.publications ensures PublicationOwned(db, p) {
        MigratedPublicationOwned(digest, versions, pacts, stored, publications, db, p);
      }
    }
    if PactVersionsOwned(db) {
      forall p, v | p in pacts && PublishedAs(stored, publications, p, v) ensures BelongsTo(versions, v, p) {
        OwnedPublicationBelongs(digest, versions, pacts, stored, publications, db, p, v);
      }
    }
  }

  lemma MigratedPublicationOwned(
      digest: string -> string, versions: set<Version>, pacts: set<Pact>,
      stored: set<StoredVersion>, publications: set<FirstPublication>, db: Database, p: Publication)
    requires Migrated(digest, versions, pacts, stored, publications) && VersionsKeyed(versions)
    requires Tables(db, versions, stored, publications) && p in db.publications
    requires forall o, v | o in pacts && PublishedAs(stored, publications, o, v) :: BelongsTo(versions, v, o)
    ensures PublicationOwned(db, p)
  {
    var q, cv :| q in publications && cv in versions && cv.id == q.consumerVersionId
      && p == Publication(q.id, cv.pacticipantId, cv.id, q.providerId, q.revision, q.pactVersionId, q.createdAt);
    var o, v := PublishedPact(digest, versions, pacts, stored, publications, q);
    OneConsumer(versions, o, v.consumerId.value);
    assert HasConsumer(versions, o, cv.pacticipantId);
    var w, _ := PublishedAsDigest(digest, versions, pacts, stored, publications, o);
    forall pv | pv in db.pactVersions && pv.id == p.pactVersionId
      ensures pv.consumerId == p.consumerId && pv.providerId == p.providerId
    {
      var u :| u in stored && u.consumerId.Some? && u.providerId.Some?
        && pv == PactVersion(u.id, u.consumerId.value, u.providerId.value, u.sha);
      assert PublishedAs(stored, publications, o, u);
    }
  }

  // The pact a publication publishes, and the pact version it refers to.
  lemma PublishedPact(
      digest: string -> string, versions: set<Version>, pacts: set<Pact>,
      stored: set<StoredVersion>, publications: set<FirstPublication>, q: FirstPublication)
    returns (o: Pact, v: StoredVersion)
    requires Migrated(digest, versions, pacts, stored, publications) && q in publications
    ensures o in pacts && o.versionId == q.consumerVersionId && o.providerId == q.providerId && q.revision == 1
    ensures v.id == q.pactVersionId && PublishedAs(stored, publications, o, v)
  {
    var stamped := set p | p in pacts :: Stamped(p, digest);
    var contents: set<Content> :| Moved({}, pacts, digest, contents) && Versioned(versions, stamped, contents, stored)
      && PublishedOnce(stamped, stored, publications);
    assert HasPact(stamped, stored, q);
    var s :| s in stamped && Publishes(stored, s, q);
    o :| o in pacts && s == Stamped(o, digest);
    v :| v in stored && v.id == q.pactVersionId && Some(v.sha) == s.sha;
  }

  lemma OwnedPublicationBelongs(
      digest: string -> string, versions: set<Version>, pacts: set<Pact>,
      stored: set<StoredVersion>, publications: set<FirstPublication>, db: Database, p: Pact, v: StoredVersion)
    requires Migrated(digest, versions, pacts, stored, publications) && Tables(db, versions, stored, publications)
    requires exists cv :: cv in versions && cv.id == p.versionId
    requires PactVersionsOwned(db) && p in pacts && PublishedAs(stored, publications, p, v)
    ensures BelongsTo(versions, v, p)
  {
    var cv :| cv in versions && cv.id == p.versionId;
    var q :| q in publications && q.consumerVersionId == p.versionId && q.providerId == p.providerId
      && q.revision == 1 && q.pactVersionId == v.id;
    var a, b := FilledInFrom(digest, versions, pacts, stored, publications, v);
    var publication :=
      Publication(q.id, cv.pacticipantId, cv.id, q.providerId, q.revision, q.pactVersionId, q.createdAt);
    assert publication in db.publications && PublicationOwned(db, publication);
    assert PactVersion(v.id, v.consumerId.value, v.providerId.value, v.sha) in db.pactVersions;
  }

  lemma OneConsumer(versions: set<Version>, p: Pact, c: Id)
    requires VersionsKeyed(versions) && HasConsumer(versions, p, c)
    ensures forall d | HasConsumer(versions, p, d) :: d == c
  {
  }
}
