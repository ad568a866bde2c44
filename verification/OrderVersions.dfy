// How a new version is given its place among the versions of its pacticipant.
module OrderVersions {
  import opened Basics
  import opened Sql
  import opened Schema
  import opened TagHeads

  // The numbers' order: a version whose number cannot be parsed is before every one
  // whose number can.
  ghost predicate StrictWeakOrder(after: (string, string) -> bool) {
    && (forall a :: !after(a, a))
    && (forall a, b, c :: after(a, b) && after(b, c) ==> after(a, c))
    && (forall a, b, c :: after(a, c) ==> after(a, b) || after(b, c))
  }

  type Versions = map<Id, Version>

  // The ids of a pacticipant's ordered versions, the last one first.
  ghost predicate Listed(list: seq<Id>, versions: Versions, pacticipantId: Id) {
    && (forall i | 0 <= i < |list| :: OrderedVersion(list[i], versions, pacticipantId))
    && (forall id {:trigger InList(id, list)} | OrderedVersion(id, versions, pacticipantId) :: InList(id, list))
    && (forall i, j | 0 <= i < j < |list| :: OrderOf(versions, list[i]) > OrderOf(versions, list[j]))
  }

  ghost predicate InList(id: Id, list: seq<Id>) { id in list }

  predicate OrderedVersion(id: Id, versions: Versions, pacticipantId: Id) {
    id in versions && versions[id].pacticipantId == pacticipantId && versions[id].order.Some?
      && versions[id].order.value >= 0
  }

  function OrderOf(versions: Versions, id: Id): int {
    if id in versions && versions[id].order.Some? then versions[id].order.value else -1
  }

  function Number(versions: Versions, id: Id): string {
    if id in versions then versions[id].number else ""
  }

  // No version comes before one its number is after.
  ghost predicate InNumberOrder(list: seq<Id>, versions: Versions, after: (string, string) -> bool) {
    forall i, j | 0 <= i < j < |list| :: !after(Number(versions, list[j]), Number(versions, list[i]))
  }

  // The unique index on pacticipant and order.
  ghost predicate OrdersUnique(versions: Versions) {
    forall a, b | a in versions && b in versions && versions[a].pacticipantId == versions[b].pacticipantId
                  && versions[a].order == versions[b].order && versions[a].order.Some? :: a == b
  }

  function WithOrder(versions: Versions, id: Id, order: int): Versions
    requires id in versions
  {
    versions[id := versions[id].(order := Some(order))]
  }

  // The first n of the list moved up by one.
  ghost function MovedUp(versions: Versions, list: seq<Id>, n: nat): Versions
    requires n <= |list| && forall i | 0 <= i < n :: list[i] in versions
  {
    map id | id in versions ::
      if id in list[..n] then versions[id].(order := Some(OrderOf(versions, id) + 1)) else versions[id]
  }

  lemma MoveNext(versions: Versions, list: seq<Id>, n: nat, pacticipantId: Id)
    requires n < |list| && Listed(list, versions, pacticipantId)
    ensures MovedUp(versions, list, n + 1) ==
      WithOrder(MovedUp(versions, list, n), list[n], OrderOf(versions, list[n]) + 1)
    ensures MovedUp(versions, list, n)[list[n]] == versions[list[n]]
  {
    assert list[..n + 1] == list[..n] + [list[n]];
    assert list[n] !in list[..n];
  }

  // At no moment do two versions share a place.
  lemma MovedUnique(versions: Versions, list: seq<Id>, n: nat, pacticipantId: Id)
    requires n <= |list| && Listed(list, versions, pacticipantId) && OrdersUnique(versions)
    requires forall id | id in versions && versions[id].order.Some? :: versions[id].order.value >= 0
    ensures OrdersUnique(MovedUp(versions, list, n))
    ensures forall id | id in versions && versions[id].pacticipantId == pacticipantId ::
              MovedUp(versions, list, n)[id].order != Some(if n < |list| then OrderOf(versions, list[n]) + 1 else 0)
  {
    var moved := MovedUp(versions, list, n);
    forall a, b | a in moved && b in moved && moved[a].pacticipantId == moved[b].pacticipantId
                  && moved[a].order == moved[b].order && moved[a].order.Some?
      ensures a == b
    {
      if a in list[..n] && b !in list[..n] { NotCaughtUp(versions, list, n, pacticipantId, a, b); }
      if b in list[..n] && a !in list[..n] { NotCaughtUp(versions, list, n, pacticipantId, b, a); }
    }
    forall id | id in versions && versions[id].pacticipantId == pacticipantId
      ensures moved[id].order != Some(if n < |list| then OrderOf(versions, list[n]) + 1 else 0)
    {
      if versions[id].order.Some? {
        assert OrderedVersion(id, versions, pacticipantId) && InList(id, list);
        var k :| 0 <= k < |list| && list[k] == id;
        if k < n { assert id in list[..n]; } else { assert id !in list[..n]; }
      }
    }
  }

  // A version that moved up does not land on one that has not.
  lemma NotCaughtUp(versions: Versions, list: seq<Id>, n: nat, pacticipantId: Id, a: Id, b: Id)
    requires n <= |list| && Listed(list, versions, pacticipantId)
    requires forall id | id in versions && versions[id].order.Some? :: versions[id].order.value >= 0
    requires a in list[..n] && b in versions && b !in list[..n]
    requires versions[b].pacticipantId == pacticipantId && versions[b].order.Some?
    ensures OrderOf(versions, a) + 1 != OrderOf(versions, b)
  {
    assert OrderedVersion(b, versions, pacticipantId) && InList(b, list);
    var i :| 0 <= i < n && list[i] == a;
    var j :| 0 <= j < |list| && list[j] == b;
    assert j >= n > i;
  }

  // ---- set_semantic_order ----

  // The first of the listed versions the new one comes after.
  ghost function Place(list: seq<Id>, versions: Versions, newId: Id, after: (string, string) -> bool): (n: nat)
    ensures n <= |list|
    ensures forall i | 0 <= i < n :: !after(Number(versions, newId), Number(versions, list[i]))
    ensures n < |list| ==> after(Number(versions, newId), Number(versions, list[n]))
  {
    if list == [] || after(Number(versions, newId), Number(versions, list[0])) then 0
    else Place(list[1..], versions, newId, after) + 1
  }

  lemma PlaceIs(list: seq<Id>, versions: Versions, newId: Id, after: (string, string) -> bool, n: nat)
    requires n <= |list| && forall i | 0 <= i < n :: !after(Number(versions, newId), Number(versions, list[i]))
    requires n < |list| ==> after(Number(versions, newId), Number(versions, list[n]))
    ensures Place(list, versions, newId, after) == n
  {
  }

  ghost function NewOrder(versions: Versions, list: seq<Id>, n: nat): int {
    if n < |list| then OrderOf(versions, list[n]) + 1 else 0
  }

  // The versions before the place are moved up and the new one takes the gap.
  ghost function Placed(versions: Versions, list: seq<Id>, newId: Id, n: nat): Versions
    requires n <= |list| && newId in versions && forall i | 0 <= i < n :: list[i] in versions
  {
    WithOrder(MovedUp(versions, list, n), newId, NewOrder(versions, list, n))
  }

  ghost predicate Orderable(versions: Versions, list: seq<Id>, pacticipantId: Id) {
    && Listed(list, versions, pacticipantId) && OrdersUnique(versions)
    && forall id | id in versions && versions[id].order.Some? :: versions[id].order.value >= 0
  }

  function Inserted(list: seq<Id>, newId: Id, n: nat): seq<Id>
    requires n <= |list|
  {
    list[..n] + [newId] + list[n..]
  }

  // The index is kept, and the list with the new version in its place is the listing
  // of the pacticipant's versions, still in the order of their numbers.
  lemma PlacedInOrder(versions: Versions, list: seq<Id>, newId: Id, after: (string, string) -> bool)
    requires newId in versions && versions[newId].order.None?
    requires Orderable(versions, list, versions[newId].pacticipantId)
    requires StrictWeakOrder(after) && InNumberOrder(list, versions, after)
    ensures var n := Place(list, versions, newId, after);
            var placed := Placed(versions, list, newId, n);
            && Orderable(placed, Inserted(list, newId, n), versions[newId].pacticipantId)
            && InNumberOrder(Inserted(list, newId, n), placed, after)
  {
    var n := Place(list, versions, newId, after);
    PlacedUnique(versions, list, newId, n);
    PlacedListed(versions, list, newId, n);
    if n < |list| { NothingBetween(after, Number(versions, newId), Number(versions, list[n])); }
    PlacedNumbers(versions, list, newId, n, after);
  }

  // The orders themselves: the listed versions that the new one does not come after move
  // up by one, it takes the order after the first it comes after, or 0 when there is none,
  // and everything else stays.
  lemma PlacedOrders(versions: Versions, list: seq<Id>, newId: Id, after: (string, string) -> bool)
    requires newId in versions && versions[newId].order.None? && Listed(list, versions, versions[newId].pacticipantId)
    ensures var n := Place(list, versions, newId, after);
            var placed := Placed(versions, list, newId, n);
            && (forall i | 0 <= i < n ::
                  && !after(versions[newId].number, versions[list[i]].number)
                  && placed[list[i]] == versions[list[i]].(order := Some(versions[list[i]].order.value + 1)))
            && (n < |list| ==>
                  && after(versions[newId].number, versions[list[n]].number)
                  && placed[newId] == versions[newId].(order := Some(versions[list[n]].order.value + 1)))
            && (n == |list| ==> placed[newId] == versions[newId].(order := Some(0)))
            && placed.Keys == versions.Keys
            && (forall id | id in versions && id != newId && id !in list[..n] :: placed[id] == versions[id])
  {
    var n := Place(list, versions, newId, after);
    forall i | 0 <= i < n
      ensures Placed(versions, list, newId, n)[list[i]]
           == versions[list[i]].(order := Some(versions[list[i]].order.value + 1))
    {
      MovedByOne(versions, list, newId, n, i);
    }
    forall i | 0 <= i < |list| ensures OrderedVersion(list[i], versions, versions[newId].pacticipantId) {
    }
  }

  lemma MovedByOne(versions: Versions, list: seq<Id>, newId: Id, n: nat, i: nat)
    requires newId in versions && versions[newId].order.None? && i < n <= |list|
    requires Listed(list, versions, versions[newId].pacticipantId)
    ensures OrderedVersion(list[i], versions, versions[newId].pacticipantId)
    ensures Placed(versions, list, newId, n)[list[i]]
         == versions[list[i]].(order := Some(versions[list[i]].order.value + 1))
  {
    assert OrderedVersion(list[i], versions, versions[newId].pacticipantId) && list[i] in list[..n];
  }

  lemma NothingBetween(after: (string, string) -> bool, a: string, b: string)
    requires StrictWeakOrder(after) && after(a, b)
    ensures forall y | !after(y, b) :: !after(y, a)
  {
  }

  lemma PlacedNumbers(versions: Versions, list: seq<Id>, newId: Id, n: nat, after: (string, string) -> bool)
    requires n <= |list| && newId in versions && (forall i | 0 <= i < n :: list[i] in versions)
    requires InNumberOrder(list, versions, after) && !after(Number(versions, newId), Number(versions, newId))
    requires forall i | 0 <= i < n :: !after(Number(versions, newId), Number(versions, list[i]))
    requires n < |list| ==> forall y | !after(y, Number(versions, list[n])) :: !after(y, Number(versions, newId))
    requires n < |list| ==> !after(Number(versions, list[n]), Number(versions, list[n]))
    ensures InNumberOrder(Inserted(list, newId, n), Placed(versions, list, newId, n), after)
  {
    var placed, more := Placed(versions, list, newId, n), Inserted(list, newId, n);
    assert forall id :: Number(placed, id) == Number(versions, id);
    forall i, j | 0 <= i < j < |more| ensures !after(Number(placed, more[j]), Number(placed, more[i])) {
      var k, l := if i < n then i else i - 1, if j < n then j else j - 1;
      if i == n {
        assert more[j] == list[l] && (l == n || !after(Number(versions, list[l]), Number(versions, list[n])));
      } else if j == n {
        assert more[i] == list[i];
      } else {
        assert more[i] == list[k] && more[j] == list[l];
      }
    }
  }

  lemma PlacedUnique(versions: Versions, list: seq<Id>, newId: Id, n: nat)
    requires n <= |list| && newId in versions && versions[newId].order.None?
    requires Orderable(versions, list, versions[newId].pacticipantId)
    ensures OrdersUnique(Placed(versions, list, newId, n))
  {
    MovedUnique(versions, list, n, versions[newId].pacticipantId);
  }

  lemma PlacedOrder(versions: Versions, list: seq<Id>, newId: Id, n: nat, k: nat)
    requires n <= |list| && newId in versions && versions[newId].order.None? && k < |list|
    requires Orderable(versions, list, versions[newId].pacticipantId)
    ensures var placed := Placed(versions, list, newId, n);
            && OrderedVersion(list[k], placed, versions[newId].pacticipantId)
            && OrderOf(placed, list[k]) == OrderOf(versions, list[k]) + if k < n then 1 else 0
  {
    assert OrderedVersion(list[k], versions, versions[newId].pacticipantId);
    assert k < n <==> list[k] in list[..n];
  }

  lemma PlacedComplete(versions: Versions, list: seq<Id>, newId: Id, n: nat, id: Id)
    requires n <= |list| && newId in versions && versions[newId].order.None?
    requires Orderable(versions, list, versions[newId].pacticipantId)
    requires OrderedVersion(id, Placed(versions, list, newId, n), versions[newId].pacticipantId)
    ensures id in Inserted(list, newId, n)
  {
    if id != newId {
      assert OrderedVersion(id, versions, versions[newId].pacticipantId) && InList(id, list);
      assert list == list[..n] + list[n..];
    }
  }

  lemma PlacedListed(versions: Versions, list: seq<Id>, newId: Id, n: nat)
    requires n <= |list| && newId in versions && versions[newId].order.None?
    requires Orderable(versions, list, versions[newId].pacticipantId)
    ensures Listed(Inserted(list, newId, n), Placed(versions, list, newId, n), versions[newId].pacticipantId)
  {
    var placed, more, pacticipantId :=
      Placed(versions, list, newId, n), Inserted(list, newId, n), versions[newId].pacticipantId;
    forall id {:trigger InList(id, more)} | OrderedVersion(id, placed, pacticipantId) ensures InList(id, more) {
      PlacedComplete(versions, list, newId, n, id);
    }
    forall i | 0 <= i < |more| ensures OrderedVersion(more[i], placed, pacticipantId) {
      PlacedPair(versions, list, newId, n, i, i);
    }
    forall i, j | 0 <= i < j < |more| ensures OrderOf(placed, more[i]) > OrderOf(placed, more[j]) {
      PlacedPair(versions, list, newId, n, i, j);
    }
  }

  lemma PlacedPair(versions: Versions, list: seq<Id>, newId: Id, n: nat, i: nat, j: nat)
    requires n <= |list| && newId in versions && versions[newId].order.None? && i <= j <= |list|
    requires Orderable(versions, list, versions[newId].pacticipantId)
    ensures var placed, more := Placed(versions, list, newId, n), Inserted(list, newId, n);
            && OrderedVersion(more[i], placed, versions[newId].pacticipantId)
            && (i < j ==> OrderOf(placed, more[i]) > OrderOf(placed, more[j]))
  {
    var more := Inserted(list, newId, n);
    var k, l := if i < n then i else i - 1, if j < n then j else j - 1;
    assert (i != n ==> more[i] == list[k]) && (j != n ==> more[j] == list[l]);
    if i != n { PlacedOrder(versions, list, newId, n, k); }
    if j != n { PlacedOrder(versions, list, newId, n, l); }
    if n < |list| { PlacedOrder(versions, list, newId, n, n); }
  }

  // tags.version_order against the versions.
  ghost predicate TagsCurrent(tags: set<Tag>, versions: Versions) {
    forall t | t in tags && t.versionId in versions :: t.versionOrder == versions[t.versionId].order
  }

  // The copies of the orders that tags hold go stale exactly when a tagged version
  // moves up: nothing updates them.
  lemma TagsLeftBehind(versions: Versions, list: seq<Id>, newId: Id, n: nat, tags: set<Tag>)
    requires n <= |list| && newId in versions && versions[newId].order.None?
    requires Orderable(versions, list, versions[newId].pacticipantId)
    requires TagsCurrent(tags, versions) && forall t | t in tags :: t.versionId != newId
    ensures TagsCurrent(tags, Placed(versions, list, newId, n)) <==> forall t | t in tags :: t.versionId !in list[..n]
  {
    if t :| t in tags && t.versionId in list[..n] {
      assert Placed(versions, list, newId, n)[t.versionId].order != t.versionOrder;
    }
  }

  // ---- the head orders per tag ----

  // Index rows name versions of their consumers.
  ghost predicate IndexOwned(lpp: set<LatestPublication>, versions: Versions) {
    forall l | l in lpp ::
      l.consumerVersionId in versions && versions[l.consumerVersionId].pacticipantId == l.consumerId
  }

  ghost predicate Keyed(versions: Versions) {
    forall id | id in versions :: versions[id].id == id
  }

  ghost function Rows(versions: Versions): set<Version> {
    set id | id in versions :: versions[id]
  }

  lemma IdOf(versions: Versions, v: Version) returns (id: Id)
    requires v in Rows(versions)
    ensures id in versions && versions[id] == v
  {
    id :| id in versions && versions[id] == v;
  }

  ghost predicate Behind(lpp: set<LatestPublication>, tags: set<Tag>, moved: seq<Id>) {
    exists l, t {:trigger l in lpp, t in tags} :: l in lpp && t in tags && t.versionId == l.consumerVersionId
      && t.versionId in moved
  }

  // The definition that reads the copied orders then differs from the one that reads
  // the versions, exactly when a tagged version with a pact moved up.
  lemma HeadOrdersLeftBehind(
    versions: Versions, list: seq<Id>, newId: Id, n: nat, lpp: set<LatestPublication>, tags: set<Tag>)
    requires n <= |list| && newId in versions && versions[newId].order.None?
    requires Keyed(versions) && Orderable(versions, list, versions[newId].pacticipantId)
    requires TagsCurrent(tags, versions) && forall t | t in tags :: t.versionId != newId
    requires IndexOwned(lpp, versions)
    ensures LatestTaggedOrdersV3(lpp, Rows(Placed(versions, list, newId, n)), tags) == LatestTaggedOrdersV4(lpp, tags)
       <==> !Behind(lpp, tags, list[..n])
  {
    if Behind(lpp, tags, list[..n]) {
      var l, t :| l in lpp && t in tags && t.versionId == l.consumerVersionId && t.versionId in list[..n];
      StaleHead(versions, list, newId, n, lpp, tags, l, t);
    } else {
      FreshHeads(versions, list, newId, n, lpp, tags);
    }
  }

  lemma FreshHeads(versions: Versions, list: seq<Id>, newId: Id, n: nat, lpp: set<LatestPublication>, tags: set<Tag>)
    requires n <= |list| && newId in versions && versions[newId].order.None?
    requires Keyed(versions) && Orderable(versions, list, versions[newId].pacticipantId)
    requires TagsCurrent(tags, versions) && forall t | t in tags :: t.versionId != newId
    requires IndexOwned(lpp, versions) && !Behind(lpp, tags, list[..n])
    ensures TaggedOrdersV3(lpp, Rows(Placed(versions, list, newId, n)), tags) == TaggedOrdersV4(lpp, tags)
  {
    var placed := Placed(versions, list, newId, n);
    forall q | q in TaggedOrdersV4(lpp, tags) ensures q in TaggedOrdersV3(lpp, Rows(placed), tags) {
      var l, t :| l in lpp && t in tags && t.versionId == l.consumerVersionId
        && q == (TagKey(l.providerId, l.consumerId, t.name), t.versionOrder);
      assert placed[t.versionId] in Rows(placed) && placed[t.versionId].id == t.versionId;
    }
    forall q | q in TaggedOrdersV3(lpp, Rows(placed), tags) ensures q in TaggedOrdersV4(lpp, tags) {
      var l, cv, t :| l in lpp && cv in Rows(placed) && t in tags
        && l.consumerVersionId == cv.id && t.versionId == l.consumerVersionId
        && q == (TagKey(l.providerId, l.consumerId, t.name), cv.order);
      var id := IdOf(placed, cv);
      assert id == t.versionId;
    }
  }

  lemma StaleHead(versions: Versions, list: seq<Id>, newId: Id, n: nat, lpp: set<LatestPublication>, tags: set<Tag>,
                  l: LatestPublication, t: Tag)
    requires n <= |list| && newId in versions && versions[newId].order.None?
    requires Keyed(versions) && Orderable(versions, list, versions[newId].pacticipantId)
    requires TagsCurrent(tags, versions) && forall u | u in tags :: u.versionId != newId
    requires IndexOwned(lpp, versions)
    requires l in lpp && t in tags && t.versionId == l.consumerVersionId && t.versionId in list[..n]
    ensures LatestTaggedOrdersV3(lpp, Rows(Placed(versions, list, newId, n)), tags) != LatestTaggedOrdersV4(lpp, tags)
  {
    var l2, t2 := NewestCopy(lpp, tags, l, t);
    TopMoves(versions, list, newId, n, t.versionId, t2.versionId);
    Outgrown(lpp, Placed(versions, list, newId, n), tags, l2, t2);
  }

  lemma NewestCopy(lpp: set<LatestPublication>, tags: set<Tag>, l: LatestPublication, t: Tag)
    returns (l2: LatestPublication, t2: Tag)
    requires l in lpp && t in tags && t.versionId == l.consumerVersionId
    ensures l2 in lpp && t2 in tags && t2.versionId == l2.consumerVersionId && NotAbove(t.versionOrder, t2.versionOrder)
    ensures TagKey(l2.providerId, l2.consumerId, t2.name) == TagKey(l.providerId, l.consumerId, t.name)
    ensures HasRow(LatestTaggedOrdersV4(lpp, tags), TagKey(l.providerId, l.consumerId, t.name), t2.versionOrder)
  {
    var key, copied := TagKey(l.providerId, l.consumerId, t.name), TaggedOrdersV4(lpp, tags);
    assert (key, t.versionOrder) in copied && (key, t.versionOrder).0 == key;
    var top := GroupMax(copied)[key];
    GroupMaxIs(copied, key, top);
    l2, t2 :| l2 in lpp && t2 in tags && t2.versionId == l2.consumerVersionId
      && (key, top) == (TagKey(l2.providerId, l2.consumerId, t2.name), t2.versionOrder);
  }

  lemma Outgrown(lpp: set<LatestPublication>, placed: Versions, tags: set<Tag>, l: LatestPublication, t: Tag)
    requires l in lpp && t in tags && t.versionId == l.consumerVersionId && t.versionOrder.Some?
    requires t.versionId in placed && placed[t.versionId].id == t.versionId
    requires placed[t.versionId].order == Some(t.versionOrder.value + 1)
    requires HasRow(LatestTaggedOrdersV4(lpp, tags), TagKey(l.providerId, l.consumerId, t.name), t.versionOrder)
    ensures LatestTaggedOrdersV3(lpp, Rows(placed), tags) != LatestTaggedOrdersV4(lpp, tags)
  {
    var key := TagKey(l.providerId, l.consumerId, t.name);
    assert placed[t.versionId] in Rows(placed);
    assert (key, placed[t.versionId].order) in TaggedOrdersV3(lpp, Rows(placed), tags);
    ExceedsMax(TaggedOrdersV3(lpp, Rows(placed), tags), TaggedOrdersV4(lpp, tags), key, t.versionOrder,
      placed[t.versionId].order);
  }

  // A version of the pacticipant that is not below one that moved up moved up, too.
  lemma TopMoves(versions: Versions, list: seq<Id>, newId: Id, n: nat, a: Id, b: Id)
    requires n <= |list| && newId in versions && versions[newId].order.None?
    requires Orderable(versions, list, versions[newId].pacticipantId)
    requires a in list[..n] && b in versions && versions[b].pacticipantId == versions[newId].pacticipantId
    requires OrderOf(versions, a) <= OrderOf(versions, b)
    ensures b != newId && OrderedVersion(b, versions, versions[newId].pacticipantId)
    ensures Placed(versions, list, newId, n)[b].order == Some(OrderOf(versions, b) + 1)
  {
    var i :| 0 <= i < n && list[i] == a;
    assert OrderedVersion(a, versions, versions[newId].pacticipantId);
    assert OrderedVersion(b, versions, versions[newId].pacticipantId) && InList(b, list);
    var j :| 0 <= j < |list| && list[j] == b;
    assert list[j] in list[..n];
  }

  // ---- the listing ----

  // The listing, but for the versions that come before those listed.
  ghost predicate ListedDownTo(list: seq<Id>, rest: set<Id>, versions: Versions, pacticipantId: Id) {
    && (forall i | 0 <= i < |list| :: OrderedVersion(list[i], versions, pacticipantId))
    && (forall id | id in rest :: OrderedVersion(id, versions, pacticipantId))
    && (forall id {:trigger InList(id, list)} | OrderedVersion(id, versions, pacticipantId) && id !in rest ::
      InList(id, list))
    && (forall i, id | 0 <= i < |list| && id in rest :: OrderOf(versions, list[i]) > OrderOf(versions, id))
    && (forall i, j | 0 <= i < j < |list| :: OrderOf(versions, list[i]) > OrderOf(versions, list[j]))
  }

  lemma ListNext(list: seq<Id>, rest: set<Id>, versions: Versions, pacticipantId: Id, last: Id)
    requires OrdersUnique(versions) && ListedDownTo(list, rest, versions, pacticipantId)
    requires last in rest && forall id | id in rest :: OrderOf(versions, id) <= OrderOf(versions, last)
    ensures ListedDownTo(list + [last], rest - {last}, versions, pacticipantId)
  {
    var more := list + [last];
    forall id {:trigger InList(id, more)} | OrderedVersion(id, versions, pacticipantId) && id !in rest - {last}
      ensures InList(id, more)
    {
      if id != last { assert InList(id, list); }
    }
    forall id | id in rest - {last} ensures OrderOf(versions, last) > OrderOf(versions, id) {
      assert OrderedVersion(id, versions, pacticipantId) && OrderedVersion(last, versions, pacticipantId);
    }
  }

  lemma {:induction false} ListingExists(versions: Versions, pacticipantId: Id) returns (list: seq<Id>)
    requires OrdersUnique(versions)
    ensures Listed(list, versions, pacticipantId)
  {
    var rest := set id | id in versions && OrderedVersion(id, versions, pacticipantId);
    list := [];
    while rest != {}
      invariant ListedDownTo(list, rest, versions, pacticipantId)
    {
      var last := GreatestExists(rest, id => OrderOf(versions, id));
      ListNext(list, rest, versions, pacticipantId, last);
      list, rest := list + [last], rest - {last};
    }
  }

  // ---- the table as a set of rows ----

  ghost predicate VersionKeys(versions: set<Version>) {
    forall a, b | a in versions && b in versions && a.id == b.id :: a == b
  }

  // No two versions of a pacticipant share a place; some may have none.
  ghost predicate PlacesUnique(versions: set<Version>) {
    && (forall v | v in versions && v.order.Some? :: v.order.value >= 0)
    && (forall a, b | a in versions && b in versions && a.pacticipantId == b.pacticipantId
          && a.order == b.order && a.order.Some? :: a == b)
  }

  ghost predicate AllPlaced(versions: set<Version>) {
    forall v | v in versions :: v.order.Some?
  }

  ghost function Row(versions: set<Version>, id: Id): Version
    requires exists v :: v in versions && v.id == id
  {
    var v :| v in versions && v.id == id;
    v
  }

  ghost function ById(versions: set<Version>): Versions {
    map id | id in (set v | v in versions :: v.id) :: Row(versions, id)
  }

  lemma ByIdIs(versions: set<Version>)
    requires VersionKeys(versions)
    ensures Keyed(ById(versions)) && Rows(ById(versions)) == versions
    ensures forall v | v in versions :: v.id in ById(versions) && ById(versions)[v.id] == v
  {
    forall v | v in versions ensures v in Rows(ById(versions)) {
      assert v.id in ById(versions) && ById(versions)[v.id] == v;
    }
  }

  // The rows once a version has been inserted and given its place.
  ghost function WithVersion(versions: set<Version>, v: Version, list: seq<Id>,
                             after: (string, string) -> bool): set<Version>
    requires Listed(list, ById(versions + {v}), v.pacticipantId)
  {
    var all := ById(versions + {v});
    Rows(Placed(all, list, v.id, Place(list, all, v.id, after)))
  }

  ghost predicate Natural(versions: Versions) {
    forall id | id in versions && versions[id].order.Some? :: versions[id].order.value >= 0
  }

  lemma RowsPlaced(versions: Versions)
    requires OrdersUnique(versions) && Natural(versions)
    ensures PlacesUnique(Rows(versions))
  {
    forall v | v in Rows(versions) && v.order.Some? ensures v.order.value >= 0 {
      var id := IdOf(versions, v);
    }
    forall a, b | a in Rows(versions) && b in Rows(versions) && a.pacticipantId == b.pacticipantId
                  && a.order == b.order && a.order.Some?
      ensures a == b
    {
      var i := IdOf(versions, a);
      var j := IdOf(versions, b);
    }
  }

  // A row without a place leaves the other rows' places as they are.
  lemma NewRowOrders(versions: set<Version>, v: Version)
    requires VersionKeys(versions + {v}) && PlacesUnique(versions) && v.order.None?
    ensures var byId := ById(versions + {v});
            v.id in byId && byId[v.id] == v && OrdersUnique(byId) && Natural(byId)
  {
    var rows := versions + {v};
    var byId := ById(rows);
    ByIdIs(rows);
    forall id | id in byId ensures byId[id] in rows && byId[id].id == id {
      assert byId[id] in Rows(byId);
    }
  }

  // Places stay unique, and when every version had one every version has one again.
  lemma WithVersionOrdered(versions: set<Version>, v: Version, list: seq<Id>, after: (string, string) -> bool)
    requires VersionKeys(versions + {v}) && PlacesUnique(versions) && v.order.None?
    requires Listed(list, ById(versions + {v}), v.pacticipantId)
    ensures PlacesUnique(WithVersion(versions, v, list, after))
    ensures AllPlaced(versions) ==> AllPlaced(WithVersion(versions, v, list, after))
  {
    var all := ById(versions + {v});
    NewRowOrders(versions, v);
    RowPlaces(all, list, v.id, Place(list, all, v.id, after));
    if AllPlaced(versions) {
      ByIdIs(versions + {v});
      RowsAllPlaced(versions, v, all, list, Place(list, all, v.id, after));
    }
  }

  lemma RowPlaces(all: Versions, list: seq<Id>, newId: Id, n: nat)
    requires n <= |list| && newId in all && all[newId].order.None?
    requires OrdersUnique(all) && Natural(all) && Listed(list, all, all[newId].pacticipantId)
    ensures PlacesUnique(Rows(Placed(all, list, newId, n)))
  {
    PlacedUnique(all, list, newId, n);
    PlacedNatural(all, list, newId, n);
    RowsPlaced(Placed(all, list, newId, n));
  }

  lemma PlacedNatural(versions: Versions, list: seq<Id>, newId: Id, n: nat)
    requires n <= |list| && newId in versions && Listed(list, versions, versions[newId].pacticipantId)
    requires Natural(versions)
    ensures Natural(Placed(versions, list, newId, n))
    ensures forall id | id in versions ::
              Placed(versions, list, newId, n)[id].order.Some? <==> id == newId || versions[id].order.Some?
  {
    assert n < |list| ==> OrderedVersion(list[n], versions, versions[newId].pacticipantId);
    forall id | id in list[..n] ensures versions[id].order.Some? && versions[id].order.value >= 0 {
      assert OrderedVersion(id, versions, versions[newId].pacticipantId);
    }
  }

  lemma RowsAllPlaced(versions: set<Version>, v: Version, all: Versions, list: seq<Id>, n: nat)
    requires n <= |list| && v.id in all && Listed(list, all, all[v.id].pacticipantId) && Natural(all)
    requires AllPlaced(versions) && Rows(all) == versions + {v} && Keyed(all)
    ensures AllPlaced(Rows(Placed(all, list, v.id, n)))
  {
    var placed := Placed(all, list, v.id, n);
    PlacedNatural(all, list, v.id, n);
    forall w | w in Rows(placed) ensures w.order.Some? {
      var id := IdOf(placed, w);
      assert all[id] in Rows(all);
    }
  }

  // The same versions, but for their places.
  ghost predicate SameVersions(versions: set<Version>, placed: set<Version>) {
    && (forall v {:trigger Represented(v, placed)} | v in versions :: Represented(v, placed))
    && (forall v {:trigger Represented(v, versions)} | v in placed :: Represented(v, versions))
  }

  ghost predicate Represented(v: Version, versions: set<Version>) {
    exists w :: w in versions && w == v.(order := w.order)
  }

  // No row is lost, and each keeps everything but its place.
  lemma WithVersionKeeps(versions: set<Version>, v: Version, list: seq<Id>, after: (string, string) -> bool)
    requires VersionKeys(versions + {v}) && Listed(list, ById(versions + {v}), v.pacticipantId)
    ensures VersionKeys(WithVersion(versions, v, list, after))
    ensures SameVersions(versions + {v}, WithVersion(versions, v, list, after))
  {
    var all := ById(versions + {v});
    var n := Place(list, all, v.id, after);
    ByIdIs(versions + {v});
    PlacedKeeps(all, list, v.id, n);
    RowsKept(all, Placed(all, list, v.id, n));
  }

  lemma PlacedKeeps(versions: Versions, list: seq<Id>, newId: Id, n: nat)
    requires n <= |list| && newId in versions && forall i | 0 <= i < n :: list[i] in versions
    ensures Placed(versions, list, newId, n).Keys == versions.Keys
    ensures var placed := Placed(versions, list, newId, n);
            forall id | id in placed :: placed[id] == versions[id].(order := placed[id].order)
  {
  }

  lemma RowsKept(versions: Versions, placed: Versions)
    requires Keyed(versions) && placed.Keys == versions.Keys
    requires forall id | id in placed :: placed[id] == versions[id].(order := placed[id].order)
    ensures VersionKeys(Rows(placed)) && SameVersions(Rows(versions), Rows(placed))
  {
    forall a, b | a in Rows(placed) && b in Rows(placed) && a.id == b.id ensures a == b {
      var i := IdOf(placed, a);
      var j := IdOf(placed, b);
    }
    forall v {:trigger Represented(v, Rows(placed))} | v in Rows(versions) ensures Represented(v, Rows(placed)) {
      var id := IdOf(versions, v);
      assert placed[id] in Rows(placed);
    }
    forall v {:trigger Represented(v, Rows(versions))} | v in Rows(placed) ensures Represented(v, Rows(versions)) {
      var id := IdOf(placed, v);
      assert versions[id] in Rows(versions);
    }
  }

  // Where the loop is: the first i of the list have moved up, and the new version has
  // taken its place if it comes after the next of them.
  ghost predicate Placing(was: Versions, list: seq<Id>, newId: Id, after: (string, string) -> bool, i: nat,
                          orderSet: bool,
                          versions: Versions)
  {
    && newId in was && i <= |list| && (forall k | 0 <= k < |list| :: list[k] in was)
    && (forall k | 0 <= k < i :: !after(Number(was, newId), Number(was, list[k])))
    && (orderSet ==> i < |list| && after(Number(was, newId), Number(was, list[i])))
    && versions == if orderSet then Placed(was, list, newId, i) else MovedUp(was, list, i)
  }

  class VersionsTable {
    var versions: Versions

    constructor (versions: Versions)
      ensures this.versions == versions
    {
      this.versions := versions;
    }

    method SetOrder(id: Id, order: int)
      requires id in versions
      modifies this
      ensures versions == WithOrder(old(versions), id, order)
    {
      versions := WithOrder(versions, id, order);
    }

    // The pacticipant's ordered versions, the last one first.
    method List(pacticipantId: Id) returns (list: seq<Id>)
      requires OrdersUnique(versions)
      ensures Listed(list, versions, pacticipantId)
    {
      var rows := versions;
      var rest := set id | id in rows && OrderedVersion(id, rows, pacticipantId);
      list := [];
      while rest != {}
        invariant ListedDownTo(list, rest, rows, pacticipantId)
      {
        ghost var greatest := GreatestExists(rest, id => OrderOf(rows, id));
        var last :| last in rest && forall id | id in rest :: OrderOf(rows, id) <= OrderOf(rows, last);
        ListNext(list, rest, rows, pacticipantId, last);
        list, rest := list + [last], rest - {last};
      }
    }

    // The listed versions are visited from the last one, each moved up by one until the
    // new version comes after one of them.
    method SetSemanticOrder(newId: Id, after: (string, string) -> bool) returns (ghost list: seq<Id>)
      requires newId in versions && versions[newId].order.None? && OrdersUnique(versions)
      requires forall id | id in versions && versions[id].order.Some? :: versions[id].order.value >= 0
      modifies this
      ensures Listed(list, old(versions), old(versions)[newId].pacticipantId)
      ensures versions == Placed(old(versions), list, newId, Place(list, old(versions), newId, after))
    {
      var found := List(versions[newId].pacticipantId);
      list := found;
      PlaceBy(newId, found, after);
    }

    method PlaceBy(newId: Id, list: seq<Id>, after: (string, string) -> bool)
      requires newId in versions && versions[newId].order.None?
      requires Orderable(versions, list, versions[newId].pacticipantId)
      modifies this
      ensures versions == Placed(old(versions), list, newId, Place(list, old(versions), newId, after))
    {
      ghost var was := versions;
      var i, orderSet := 0, false;
      assert MovedUp(was, list, 0) == was;
      while i < |list| && !orderSet
        invariant i <= |list| && Placing(was, list, newId, after, i, orderSet, versions)
        decreases |list| - i, !orderSet
      {
        orderSet := PlaceOrMove(newId, list, after, was, i);
        if !orderSet {
          i := i + 1;
        }
      }
      PlaceIs(list, was, newId, after, i);
      if !orderSet {
        SetOrder(newId, 0);
      }
    }

    // The new version takes the place after the listed one, or that one moves up.
    method PlaceOrMove(newId: Id, list: seq<Id>, after: (string, string) -> bool, ghost was: Versions, i: nat)
      returns (orderSet: bool)
      requires newId in was && was[newId].order.None? && Orderable(was, list, was[newId].pacticipantId)
      requires i < |list| && Placing(was, list, newId, after, i, false, versions)
      modifies this
      ensures Placing(was, list, newId, after, if orderSet then i else i + 1, orderSet, versions)
    {
      MoveNext(was, list, i, was[newId].pacticipantId);
      orderSet := after(versions[newId].number, versions[list[i]].number);
      if orderSet {
        SetOrder(newId, versions[list[i]].order.value + 1);
      } else {
        SetOrder(list[i], versions[list[i]].order.value + 1);
      }
    }
  }
}
