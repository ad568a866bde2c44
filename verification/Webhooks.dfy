// The latest triggered webhook of each webhook, consumer and provider: by date
// and then id, and later by id alone for each event name.
module Webhooks {
  import opened Basics
  import opened Sql
  import opened Schema

  datatype TriggeredWebhook = TriggeredWebhook(
    id: Id, webhookUuid: string, consumerId: Id, providerId: Id, status: string, createdAt: int,
    eventName: Option<string>)

  datatype WebhookKey = WebhookKey(webhookUuid: string, consumerId: Id, providerId: Id)

  ghost function KeyOf(w: TriggeredWebhook): WebhookKey { WebhookKey(w.webhookUuid, w.consumerId, w.providerId) }

  ghost predicate Keyed(table: set<TriggeredWebhook>) {
    forall a, b | a in table && b in table && a.id == b.id :: a == b
  }

  ghost function Dates(table: set<TriggeredWebhook>): set<(WebhookKey, Num)> {
    set w | w in table :: (KeyOf(w), Some(w.createdAt))
  }

  // latest_triggered_webhook_creation_dates
  ghost function LatestDates(table: set<TriggeredWebhook>): map<WebhookKey, Num> {
    GroupMax(Dates(table))
  }

  // latest_triggered_webhook_ids
  ghost function IdsAtLatestDate(table: set<TriggeredWebhook>): set<((WebhookKey, int), Num)> {
    set w | w in table && HasRow(LatestDates(table), KeyOf(w), Some(w.createdAt)) ::
      ((KeyOf(w), w.createdAt), Some(w.id))
  }

  ghost function LatestIds(table: set<TriggeredWebhook>): map<(WebhookKey, int), Num> {
    GroupMax(IdsAtLatestDate(table))
  }

  ghost function LatestTriggeredV2(table: set<TriggeredWebhook>): set<TriggeredWebhook> {
    var ids := LatestIds(table);
    set w, k | w in table && k in ids && k.0 == KeyOf(w) && ids[k] == Some(w.id) :: w
  }

  ghost function IdsByEvent(table: set<TriggeredWebhook>): set<((WebhookKey, Option<string>), Num)> {
    set w | w in table :: ((KeyOf(w), w.eventName), Some(w.id))
  }

  ghost function LatestTriggeredV3(table: set<TriggeredWebhook>): set<TriggeredWebhook> {
    set w | w in table && Some(w.id) in GroupMax(IdsByEvent(table)).Values
  }

  predicate SameWebhook(a: TriggeredWebhook, b: TriggeredWebhook) {
    a.webhookUuid == b.webhookUuid && a.consumerId == b.consumerId && a.providerId == b.providerId
  }

  // Latest of its group by date, ties broken by id.
  ghost predicate IsLatest(table: set<TriggeredWebhook>, w: TriggeredWebhook) {
    w in table && forall u | u in table && SameWebhook(u, w) ::
      u.createdAt < w.createdAt || (u.createdAt == w.createdAt && u.id <= w.id)
  }

  // Latest of its group and event name by id.
  ghost predicate IsLatestForEvent(table: set<TriggeredWebhook>, w: TriggeredWebhook) {
    w in table && forall u | u in table && SameWebhook(u, w) && u.eventName == w.eventName :: u.id <= w.id
  }

  lemma AtLatestDate(table: set<TriggeredWebhook>, w: TriggeredWebhook)
    requires w in table
    ensures HasRow(LatestDates(table), KeyOf(w), Some(w.createdAt))
       <==> forall u | u in table && KeyOf(u) == KeyOf(w) :: u.createdAt <= w.createdAt
  {
    GroupMaxIs(Dates(table), KeyOf(w), Some(w.createdAt));
    assert (KeyOf(w), Some(w.createdAt)) in Dates(table);
    if HasRow(LatestDates(table), KeyOf(w), Some(w.createdAt)) {
      forall u | u in table && KeyOf(u) == KeyOf(w) ensures u.createdAt <= w.createdAt {
        assert (KeyOf(u), Some(u.createdAt)) in Dates(table);
      }
    }
  }

  lemma HasLatestId(table: set<TriggeredWebhook>, w: TriggeredWebhook)
    requires w in table
    ensures HasRow(LatestIds(table), (KeyOf(w), w.createdAt), Some(w.id)) <==> IsLatest(table, w)
  {
    var base := IdsAtLatestDate(table);
    var k := (KeyOf(w), w.createdAt);
    AtLatestDate(table, w);
    GroupMaxIs(base, k, Some(w.id));
    if IsLatest(table, w) {
      assert (k, Some(w.id)) in base;
      forall q | q in base && q.0 == k ensures NotAbove(q.1, Some(w.id)) {
        var u :| u in table && q == ((KeyOf(u), u.createdAt), Some(u.id));
      }
    }
    if HasRow(LatestIds(table), k, Some(w.id)) {
      assert (k, Some(w.id)) in base;
      var o :| o in table && HasRow(LatestDates(table), KeyOf(o), Some(o.createdAt))
        && (k, Some(w.id)) == ((KeyOf(o), o.createdAt), Some(o.id));
      forall u | u in table && KeyOf(u) == KeyOf(w)
        ensures u.createdAt < w.createdAt || (u.createdAt == w.createdAt && u.id <= w.id)
      {
        if u.createdAt == w.createdAt { assert ((KeyOf(u), u.createdAt), Some(u.id)) in base; }
      }
    }
  }

  lemma InV2(table: set<TriggeredWebhook>, w: TriggeredWebhook)
    requires Keyed(table)
    ensures w in LatestTriggeredV2(table) <==> IsLatest(table, w)
    ensures w in LatestTriggeredV2(table) <==>
              w in table && forall u | u in table && u.webhookUuid == w.webhookUuid && u.consumerId == w.consumerId
                                       && u.providerId == w.providerId ::
                u.createdAt < w.createdAt || (u.createdAt == w.createdAt && u.id <= w.id)
  {
    if w in LatestTriggeredV2(table) {
      var k :| k in LatestIds(table) && k.0 == KeyOf(w) && LatestIds(table)[k] == Some(w.id);
      GroupMaxIs(IdsAtLatestDate(table), k, Some(w.id));
      assert (k, Some(w.id)) in IdsAtLatestDate(table);
      var u :| u in table && (k, Some(w.id)) == ((KeyOf(u), u.createdAt), Some(u.id));
      assert u == w;
      HasLatestId(table, w);
    }
    if IsLatest(table, w) {
      HasLatestId(table, w);
      assert (KeyOf(w), w.createdAt).0 == KeyOf(w);
    }
  }

  lemma {:induction false} LatestExists(table: set<TriggeredWebhook>, w: TriggeredWebhook)
    returns (top: TriggeredWebhook)
    requires w in table
    ensures IsLatest(table, top) && KeyOf(top) == KeyOf(w)
  {
    var group := set u | u in table && KeyOf(u) == KeyOf(w);
    assert w in group;
    var first := GreatestExists(group, (u: TriggeredWebhook) => u.createdAt);
    var last := set u | u in group && u.createdAt == first.createdAt;
    assert first in last;
    top := GreatestExists(last, (u: TriggeredWebhook) => u.id);
    forall u | u in table && KeyOf(u) == KeyOf(top)
      ensures u.createdAt < top.createdAt || (u.createdAt == top.createdAt && u.id <= top.id)
    {
      assert u in group && (u.createdAt == top.createdAt ==> u in last);
    }
  }

  // One row for each webhook, consumer and provider, even when dates tie.
  lemma OneRowPerWebhook(table: set<TriggeredWebhook>, w: TriggeredWebhook) returns (top: TriggeredWebhook)
    requires Keyed(table) && w in table
    ensures top in LatestTriggeredV2(table) && top.webhookUuid == w.webhookUuid
    ensures top.consumerId == w.consumerId && top.providerId == w.providerId
    ensures forall u | u in LatestTriggeredV2(table) && u.webhookUuid == w.webhookUuid
                       && u.consumerId == w.consumerId && u.providerId == w.providerId :: u == top
  {
    top := LatestExists(table, w);
    InV2(table, top);
    forall u | u in LatestTriggeredV2(table) && KeyOf(u) == KeyOf(w) ensures u == top {
      InV2(table, u);
    }
  }

  lemma InV3(table: set<TriggeredWebhook>, w: TriggeredWebhook)
    requires Keyed(table)
    ensures w in LatestTriggeredV3(table) <==> IsLatestForEvent(table, w)
    ensures w in LatestTriggeredV3(table) <==>
              w in table && forall u | u in table && u.webhookUuid == w.webhookUuid && u.consumerId == w.consumerId
                                       && u.providerId == w.providerId && u.eventName == w.eventName :: u.id <= w.id
  {
    var base := IdsByEvent(table);
    if w in LatestTriggeredV3(table) {
      var k :| k in GroupMax(base) && GroupMax(base)[k] == Some(w.id);
      GroupMaxIs(base, k, Some(w.id));
      assert (k, Some(w.id)) in base;
      var o :| o in table && (k, Some(w.id)) == ((KeyOf(o), o.eventName), Some(o.id));
      assert o == w;
      forall u | u in table && KeyOf(u) == KeyOf(w) && u.eventName == w.eventName ensures u.id <= w.id {
        assert ((KeyOf(u), u.eventName), Some(u.id)) in base;
      }
    }
    if IsLatestForEvent(table, w) {
      var k := (KeyOf(w), w.eventName);
      assert (k, Some(w.id)) in base;
      forall q | q in base && q.0 == k ensures NotAbove(q.1, Some(w.id)) {
        var u :| u in table && q == ((KeyOf(u), u.eventName), Some(u.id));
      }
      GroupMaxIs(base, k, Some(w.id));
    }
  }

  lemma {:induction false} LatestForEventExists(table: set<TriggeredWebhook>, w: TriggeredWebhook)
    returns (top: TriggeredWebhook)
    requires w in table
    ensures IsLatestForEvent(table, top) && KeyOf(top) == KeyOf(w) && top.eventName == w.eventName
  {
    var group := set u | u in table && KeyOf(u) == KeyOf(w) && u.eventName == w.eventName;
    assert w in group;
    top := GreatestExists(group, (u: TriggeredWebhook) => u.id);
    assert forall u | u in table && KeyOf(u) == KeyOf(top) && u.eventName == top.eventName :: u in group;
  }

  // Each group was triggered by one event, and its highest id has its last date.
  ghost predicate SingleEvent(table: set<TriggeredWebhook>) {
    forall a, b | a in table && b in table && SameWebhook(a, b) :: a.eventName == b.eventName
  }

  ghost predicate HasHighestId(table: set<TriggeredWebhook>, w: TriggeredWebhook) {
    w in table && forall u | u in table && SameWebhook(u, w) :: u.id <= w.id
  }

  ghost predicate HighestIdIsLast(table: set<TriggeredWebhook>) {
    forall a, b | HasHighestId(table, a) && b in table && SameWebhook(a, b) :: b.createdAt <= a.createdAt
  }

  // v3 replaces v2 faithfully exactly under these two conditions.
  lemma V3AgreesWithV2(table: set<TriggeredWebhook>)
    requires Keyed(table)
    ensures LatestTriggeredV2(table) == LatestTriggeredV3(table) <==>
              && (forall a, b | a in table && b in table && a.webhookUuid == b.webhookUuid
                                && a.consumerId == b.consumerId && a.providerId == b.providerId ::
                    a.eventName == b.eventName)
              && (forall a, b | a in table && b in table && a.webhookUuid == b.webhookUuid
                                && a.consumerId == b.consumerId && a.providerId == b.providerId
                                && HasHighestId(table, a) :: b.createdAt <= a.createdAt)
  {
    AgreesExactly(table);
  }

  lemma AgreesExactly(table: set<TriggeredWebhook>)
    requires Keyed(table)
    ensures LatestTriggeredV2(table) == LatestTriggeredV3(table) <==> SingleEvent(table) && HighestIdIsLast(table)
  {
    SameAsLatest(table);
    if SingleEvent(table) && HighestIdIsLast(table) {
      forall w ensures IsLatest(table, w) <==> IsLatestForEvent(table, w) { LatestMeansHighest(table, w); }
    }
    if forall w :: IsLatest(table, w) <==> IsLatestForEvent(table, w) {
      forall a, b | a in table && b in table && SameWebhook(a, b) ensures a.eventName == b.eventName {
        OneEvent(table, a, b);
      }
      forall a, b | HasHighestId(table, a) && b in table && SameWebhook(a, b) ensures b.createdAt <= a.createdAt {
        assert IsLatestForEvent(table, a);
      }
    }
  }

  lemma SameAsLatest(table: set<TriggeredWebhook>)
    requires Keyed(table)
    ensures LatestTriggeredV2(table) == LatestTriggeredV3(table) <==>
              forall w :: IsLatest(table, w) <==> IsLatestForEvent(table, w)
  {
    forall w ensures w in LatestTriggeredV2(table) <==> IsLatest(table, w) { InV2(table, w); }
    forall w ensures w in LatestTriggeredV3(table) <==> IsLatestForEvent(table, w) { InV3(table, w); }
  }

  lemma OneEvent(table: set<TriggeredWebhook>, a: TriggeredWebhook, b: TriggeredWebhook)
    requires Keyed(table) && a in table && b in table && KeyOf(a) == KeyOf(b)
    requires forall w :: IsLatest(table, w) <==> IsLatestForEvent(table, w)
    ensures a.eventName == b.eventName
  {
    var x := LatestForEventExists(table, a);
    var y := LatestForEventExists(table, b);
    assert IsLatest(table, x) && IsLatest(table, y);
    assert x.id == y.id;
  }

  lemma LatestMeansHighest(table: set<TriggeredWebhook>, w: TriggeredWebhook)
    requires Keyed(table) && SingleEvent(table) && HighestIdIsLast(table)
    ensures IsLatest(table, w) <==> IsLatestForEvent(table, w)
  {
    if w in table {
      var high := LatestForEventExists(table, w);
      assert HasHighestId(table, high);
      assert IsLatest(table, high);
    }
  }
}
