// 000044: giving every verification the id of the provider version it names,
// creating the versions that are missing.
module Backfill {
  import opened Basics
  import opened Sql
  import opened Schema

  // A verification before its provider_version_id column is filled.
  datatype NamedVerification = NamedVerification(
    id: Id, providerVersion: string, pactVersionId: Id, providerVersionId: Num, createdAt: int)

  // A line of verifications joined to pact_versions.
  datatype Line = Line(id: Id, providerVersion: string, providerId: Id)

  ghost predicate NumbersUnique(versions: set<Version>) {
    forall a, b | a in versions && b in versions && a.pacticipantId == b.pacticipantId && a.number == b.number :: a == b
  }

  ghost predicate IdsBelow(versions: set<Version>, next: Id) {
    && (forall a, b | a in versions && b in versions && a.id == b.id :: a == b)
    && (forall a | a in versions :: a.id < next)
  }

  predicate Names(s: Version, line: Line) {
    s.pacticipantId == line.providerId && s.number == line.providerVersion
  }

  ghost predicate Known(versions: set<Version>, line: Line) {
    exists s :: s in versions && Names(s, line)
  }

  // Some line names the version.
  ghost predicate Wanted(lines: set<Line>, s: Version) {
    exists line :: line in lines && Names(s, line)
  }

  ghost predicate LinesKeyed(lines: set<Line>) {
    forall a, b | a in lines && b in lines && a.id == b.id :: a == b
  }

  // The versions after the lines: the old ones, and one for each (provider, number)
  // pair that some line names and no old version has.
  ghost predicate Completed(before: set<Version>, lines: set<Line>, after: set<Version>) {
    && before <= after && NumbersUnique(after)
    && (forall line {:trigger Known(after, line)} | line in lines :: Known(after, line))
    && (forall s {:trigger Wanted(lines, s)} | s in after && s !in before :: Wanted(lines, s) && s.order == None)
  }

  // v now points to the version its line names.
  ghost predicate Resolved(versions: set<Version>, line: Line, v: NamedVerification) {
    exists s :: s in versions && Names(s, line) && v.providerVersionId == Some(s.id)
  }

  ghost function LineOf(pactVersions: set<PactVersion>, v: NamedVerification): Line
    requires exists pv :: pv in pactVersions && pv.id == v.pactVersionId
  {
    var pv :| pv in pactVersions && pv.id == v.pactVersionId;
    Line(v.id, v.providerVersion, pv.providerId)
  }

  class Tables {
    const pactVersions: set<PactVersion>
    var versions: set<Version>
    var verifications: set<NamedVerification>
    var nextVersionId: Id

    constructor (pactVersions: set<PactVersion>, versions: set<Version>, verifications: set<NamedVerification>,
                 next: Id)
      ensures this.pactVersions == pactVersions && this.versions == versions
      ensures this.verifications == verifications && nextVersionId == next
    {
      this.pactVersions, this.versions, this.verifications, this.nextVersionId :=
        pactVersions, versions, verifications, next;
    }

    ghost predicate Sound()
      reads this
    {
      && (forall a, b | a in pactVersions && b in pactVersions && a.id == b.id :: a == b)
      && (forall v, w | v in verifications && w in verifications && v.id == w.id :: v == w)
      && (forall v | v in verifications :: exists pv :: pv in pactVersions && pv.id == v.pactVersionId)
      && NumbersUnique(versions) && IdsBelow(versions, nextVersionId)
    }

    function Lines(): set<Line>
      reads this
    {
      set v, pv | v in verifications && pv in pactVersions && pv.id == v.pactVersionId
        :: Line(v.id, v.providerVersion, pv.providerId)
    }

    // Find the version a line names, or insert it.
    method FindOrCreate(line: Line) returns (id: Id)
      requires NumbersUnique(versions) && IdsBelow(versions, nextVersionId)
      modifies this`versions, this`nextVersionId
      ensures NumbersUnique(versions) && IdsBelow(versions, nextVersionId)
      ensures exists s :: s in versions && Names(s, line) && s.id == id
                && versions == old(versions) + {s}
                  && (s in old(versions) || (s.order == None && !Known(old(versions), line)))
    {
      var found := set s | s in versions && Names(s, line);
      if found != {} {
        var s :| s in found;
        id := s.id;
        assert versions == versions + {s};
      } else {
        id := nextVersionId;
        var s := Version(id, line.providerVersion, line.providerId, None);
        assert forall t | t in versions :: t !in found;
        versions := versions + {s};
        nextVersionId := nextVersionId + 1;
      }
    }

    // update verifications set provider_version_id = versionId where id = id
    method SetProviderVersion(id: Id, versionId: Id)
      modifies this`verifications
      ensures verifications == set v | v in old(verifications) :: WithVersion(v, id, versionId)
    {
      verifications := set v | v in verifications :: WithVersion(v, id, versionId);
    }

    // After the loop every verification points to the version it names.
    method PopulateProviderVersionIds()
      requires Sound()
      modifies this
      ensures Completed(old(versions), old(Lines()), versions)
      ensures AllResolved(pactVersions, versions, old(verifications), verifications)
    {
      var lines := Lines();
      ghost var rows := verifications;
      LinesOfVerifications(pactVersions, rows);
      ghost var resolved := ResolveLines(lines);
      PointedRowsResolved(pactVersions, versions, rows, resolved, lines);
    }

    // The loop over the joined lines.
    method ResolveLines(lines: set<Line>) returns (ghost resolved: map<Id, Id>)
      requires LinesKeyed(lines) && NumbersUnique(versions) && IdsBelow(versions, nextVersionId)
      modifies this
      ensures Completed(old(versions), lines, versions)
      ensures verifications == PointedRows(old(verifications), resolved)
      ensures forall line {:trigger PointsTo(versions, line, resolved)} | line in lines ::
                PointsTo(versions, line, resolved)
    {
      var remaining := lines;
      resolved := map[];
      assert verifications == PointedRows(old(verifications), resolved);
      while remaining != {}
        invariant remaining <= lines
        invariant IdsBelow(versions, nextVersionId)
        invariant Completed(old(versions), lines - remaining, versions)
        invariant verifications == PointedRows(old(verifications), resolved)
        invariant forall line {:trigger PointsTo(versions, line, resolved)} | line in lines - remaining ::
                    PointsTo(versions, line, resolved)
        decreases remaining
      {
        var line :| line in remaining;
        ghost var before := versions;
        var id := FindOrCreate(line);
        CompletedOneMore(old(versions), lines - remaining, before, line, versions);
        PointedOneMore(lines, lines - remaining, before, versions, line, id, resolved);
        assert lines - (remaining - {line}) == (lines - remaining) + {line};
        SetProviderVersion(line.id, id);
        PointedRowsUpdated(old(verifications), resolved, line.id, id);
        resolved := resolved[line.id := id];
        remaining := remaining - {line};
      }
      assert lines - remaining == lines;
    }
  }

  function WithVersion(v: NamedVerification, id: Id, versionId: Id): NamedVerification {
    if v.id == id then v.(providerVersionId := Some(versionId)) else v
  }

  // The same rows, each pointing to the version it names.
  ghost predicate AllResolved(
    pactVersions: set<PactVersion>, versions: set<Version>, before: set<NamedVerification>,
    after: set<NamedVerification>)
  {
    && (forall v | v in before :: exists pv :: pv in pactVersions && pv.id == v.pactVersionId)
    && (forall v | v in before :: exists w :: w in after && w.id == v.id)
    && (forall w {:trigger ResolvedFrom(pactVersions, versions, before, w)} | w in after ::
          ResolvedFrom(pactVersions, versions, before, w))
  }

  ghost predicate ResolvedFrom(
    pactVersions: set<PactVersion>, versions: set<Version>, before: set<NamedVerification>, w: NamedVerification)
    requires forall v | v in before :: exists pv :: pv in pactVersions && pv.id == v.pactVersionId
  {
    exists v :: v in before && w == v.(providerVersionId := w.providerVersionId)
      && Resolved(versions, LineOf(pactVersions, v), w)
  }

  ghost function PointedRows(rows: set<NamedVerification>, resolved: map<Id, Id>): set<NamedVerification> {
    set v | v in rows :: Pointed(v, resolved)
  }

  lemma PointedRowsUpdated(rows: set<NamedVerification>, resolved: map<Id, Id>, id: Id, versionId: Id)
    ensures (set v | v in PointedRows(rows, resolved) :: WithVersion(v, id, versionId))
         == PointedRows(rows, resolved[id := versionId])
  {
    assert forall v | v in rows ::
      WithVersion(Pointed(v, resolved), id, versionId) == Pointed(v, resolved[id := versionId]);
  }

  lemma PointedRowsResolved(
      pactVersions: set<PactVersion>, versions: set<Version>, rows: set<NamedVerification>, resolved: map<Id, Id>,
      lines: set<Line>)
    requires forall v | v in rows :: exists pv :: pv in pactVersions && pv.id == v.pactVersionId
    requires lines == set v, pv | v in rows && pv in pactVersions && pv.id == v.pactVersionId
                        :: Line(v.id, v.providerVersion, pv.providerId)
    requires forall line {:trigger PointsTo(versions, line, resolved)} | line in lines ::
               PointsTo(versions, line, resolved)
    ensures AllResolved(pactVersions, versions, rows, PointedRows(rows, resolved))
  {
    var after := PointedRows(rows, resolved);
    forall w {:trigger ResolvedFrom(pactVersions, versions, rows, w)} | w in after
      ensures ResolvedFrom(pactVersions, versions, rows, w)
    {
      var v :| v in rows && w == Pointed(v, resolved);
      assert w == Pointed(v, resolved);
      var line := LineOf(pactVersions, v);
      assert line in lines && PointsTo(versions, line, resolved);
      assert Resolved(versions, line, w);
    }
    forall v | v in rows ensures exists w :: w in after && w.id == v.id {
      assert Pointed(v, resolved) in after;
    }
  }

  ghost function Pointed(v: NamedVerification, resolved: map<Id, Id>): NamedVerification {
    if v.id in resolved then v.(providerVersionId := Some(resolved[v.id])) else v
  }

  ghost predicate PointsTo(versions: set<Version>, line: Line, resolved: map<Id, Id>) {
    line.id in resolved && exists s :: s in versions && Names(s, line) && s.id == resolved[line.id]
  }

  lemma LinesOfVerifications(pactVersions: set<PactVersion>, verifications: set<NamedVerification>)
    requires forall a, b | a in pactVersions && b in pactVersions && a.id == b.id :: a == b
    requires forall v, w | v in verifications && w in verifications && v.id == w.id :: v == w
    requires forall v | v in verifications :: exists pv :: pv in pactVersions && pv.id == v.pactVersionId
    ensures LinesKeyed(set v, pv | v in verifications && pv in pactVersions && pv.id == v.pactVersionId
                         :: Line(v.id, v.providerVersion, pv.providerId))
  {
  }

  lemma CompletedOneMore(first: set<Version>, done: set<Line>, before: set<Version>, line: Line, after: set<Version>)
    requires Completed(first, done, before) && NumbersUnique(after)
    requires exists s :: s in after && Names(s, line) && after == before + {s} && (s in before || s.order == None)
    ensures Completed(first, done + {line}, after)
  {
    var s :| s in after && Names(s, line) && after == before + {s} && (s in before || s.order == None);
    forall l {:trigger Known(after, l)} | l in done + {line} ensures Known(after, l) {
      if l != line {
        assert Known(before, l);
        var t :| t in before && Names(t, l);
        assert t in after;
      }
    }
    forall t {:trigger Wanted(done + {line}, t)} | t in after && t !in first
      ensures Wanted(done + {line}, t) && t.order == None
    {
      if t in before {
        assert Wanted(done, t);
        var l :| l in done && Names(t, l);
        assert l in done + {line};
      } else {
        assert line in done + {line};
      }
    }
  }

  lemma PointedOneMore(
      lines: set<Line>, done: set<Line>, before: set<Version>, after: set<Version>, line: Line, id: Id,
      resolved: map<Id, Id>)
    requires LinesKeyed(lines) && done <= lines && line in lines && line !in done && before <= after
    requires forall l {:trigger PointsTo(before, l, resolved)} | l in done :: PointsTo(before, l, resolved)
    requires exists s :: s in after && Names(s, line) && s.id == id
    ensures forall l {:trigger PointsTo(after, l, resolved[line.id := id])} | l in done + {line} ::
              PointsTo(after, l, resolved[line.id := id])
  {
    forall l {:trigger PointsTo(after, l, resolved[line.id := id])} | l in done + {line}
      ensures PointsTo(after, l, resolved[line.id := id])
    {
      if l != line {
        assert PointsTo(before, l, resolved);
        var s :| s in before && Names(s, l) && s.id == resolved[l.id];
        assert s in after && l.id != line.id;
      }
    }
  }

  // So the ids satisfy what the views assume: a verification's provider version is
  // the one it names, and belongs to the provider of its pact version.
  lemma ResolvedVersionIsProviders(
      pactVersions: set<PactVersion>, versions: set<Version>, next: Id, v: NamedVerification, w: NamedVerification,
      s: Version)
    requires IdsBelow(versions, next) && s in versions && w.providerVersionId == Some(s.id)
    requires exists pv :: pv in pactVersions && pv.id == v.pactVersionId
    requires Resolved(versions, LineOf(pactVersions, v), w)
    ensures s.number == v.providerVersion
    ensures exists pv :: pv in pactVersions && pv.id == v.pactVersionId && s.pacticipantId == pv.providerId
  {
    var t :| t in versions && Names(t, LineOf(pactVersions, v)) && w.providerVersionId == Some(t.id);
    assert t == s;
  }

  // A version is created for each missing pair, once, and for no other.
  lemma OneVersionPerMissingPair(before: set<Version>, lines: set<Line>, after: set<Version>, line: Line)
    requires Completed(before, lines, after) && line in lines
    ensures exists s :: (s in after && Names(s, line) && (s in before <==> Known(before, line))
                         && forall t | t in after && Names(t, line) :: t == s)
  {
    assert Known(after, line);
    var s :| s in after && Names(s, line);
    if Known(before, line) {
      var t :| t in before && Names(t, line);
      assert t == s;
    }
  }

  // Running the backfill where every pair is already there creates nothing.
  lemma NothingToCreate(before: set<Version>, lines: set<Line>, after: set<Version>)
    requires Completed(before, lines, after)
    ensures after == before <==> forall line | line in lines :: Known(before, line)
  {
    if s :| s in after && s !in before {
      assert Wanted(lines, s);
      var line :| line in lines && Names(s, line);
      assert forall t | t in before && Names(t, line) :: t == s;
      assert !Known(before, line);
    }
    if after == before {
      forall line | line in lines ensures Known(before, line) { assert Known(after, line); }
    }
  }
}
