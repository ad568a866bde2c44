// The timer queue: a linked list of timers and a table of the same timers by id.
module Timer {
  import opened Basics

  function Earlier(a: Extended, b: Extended): Extended {
    if AtMost(a, b) then a else b
  }

  function Plus(since: real, delay: Extended): Extended {
    if delay.Finite? then Finite(since + delay.value) else Infinity
  }

  // A callback function carries the id of its timer as a property.
  class Callback {
    var id: Option<nat>

    constructor ()
      ensures id == None
    {
      id := None;
    }
  }

  class Timer {
    const callback: Callback
    var since: real
    var delay: Extended
    var flush: bool
    var next: Timer?

    constructor (callback: Callback, since: real, delay: Extended, next: Timer?)
      ensures this.callback == callback && this.since == since && this.delay == delay && this.next == next && !flush
    {
      this.callback, this.since, this.delay, this.next := callback, since, delay, next;
      flush := false;
    }
  }

  // ---- The queue as a list of entries ----

  datatype Entry = Entry(callback: Callback, since: real, delay: Extended, flush: bool)

  function Due(e: Entry): Extended { Plus(e.since, e.delay) }

  ghost predicate Registers(entries: seq<Entry>, callback: Callback) {
    exists i :: 0 <= i < |entries| && entries[i].callback == callback
  }

  ghost predicate OnePerCallback(entries: seq<Entry>) {
    forall i, j | 0 <= i < j < |entries| :: entries[i].callback != entries[j].callback
  }

  // Registering a callback that has a timer resets it; otherwise a timer is put in
  // front of the others.
  ghost function Registered(entries: seq<Entry>, callback: Callback, since: real, delay: Extended): seq<Entry> {
    if Registers(entries, callback) then
      seq(|entries|, i requires 0 <= i < |entries| =>
        if entries[i].callback == callback then entries[i].(since := since, delay := delay) else entries[i])
    else
      [Entry(callback, since, delay, false)] + entries
  }

  function FiredEntry(e: Entry, now: real, immediate: bool, finished: (Callback, real) -> bool): Entry {
    if (if immediate then e.delay == Finite(0.0) else AtMost(e.delay, Finite(now - e.since)))
    then e.(flush := finished(e.callback, now - e.since))
    else e
  }

  function Fired(entries: seq<Entry>, now: real, immediate: bool,
                 finished: (Callback, real) -> bool): (fired: seq<Entry>)
    ensures |fired| == |entries|
    ensures forall i | 0 <= i < |entries| :: fired[i] == FiredEntry(entries[i], now, immediate, finished)
  {
    seq(|entries|, i requires 0 <= i < |entries| => FiredEntry(entries[i], now, immediate, finished))
  }

  // Where Fire is: the first n entries have had their turn.
  ghost predicate FiredTo(entries: seq<Entry>, was: seq<Entry>, n: nat, now: real, immediate: bool,
                          finished: (Callback, real) -> bool)
  {
    n <= |was| && entries == Fired(was[..n], now, immediate, finished) + was[n..]
  }

  lemma FireNext(entries: seq<Entry>, was: seq<Entry>, n: nat, now: real, immediate: bool,
                 finished: (Callback, real) -> bool)
    requires n < |was| && FiredTo(entries, was, n, now, immediate, finished)
    ensures entries[n] == was[n]
    ensures FiredTo(entries[n := FiredEntry(was[n], now, immediate, finished)], was, n + 1, now, immediate, finished)
  {
    assert Fired(was[..n + 1], now, immediate, finished)
        == Fired(was[..n], now, immediate, finished) + [FiredEntry(was[n], now, immediate, finished)];
  }

  function Flushed(entries: seq<Entry>): seq<Entry> {
    if entries == [] then []
    else (if entries[0].flush then [] else [entries[0]]) + Flushed(entries[1..])
  }

  // A timer whose turn came at now and whose callback has finished, or that had been
  // flagged before and whose turn did not come, goes; every other one stays, unflagged.
  // Its turn comes at a frame when its delay is over, and when the queue is flushed if
  // it has none.
  lemma FiredStays(entries: seq<Entry>, now: real, immediate: bool, finished: (Callback, real) -> bool, e: Entry)
    requires OnePerCallback(entries) && e in entries
    ensures var turn := if immediate then e.delay == Finite(0.0)
                        else e.delay.Finite? && e.since + e.delay.value <= now;
            var after := Flushed(Fired(entries, now, immediate, finished));
            && (Entry(e.callback, e.since, e.delay, false) in after
                <==> (if turn then !finished(e.callback, now - e.since) else !e.flush))
            && (Registers(after, e.callback) <==> Entry(e.callback, e.since, e.delay, false) in after)
  {
    var fired := Fired(entries, now, immediate, finished);
    var stays, i := Entry(e.callback, e.since, e.delay, false), IndexOf(entries, e);
    FlushedHolds(fired, stays);
    assert fired[i] == FiredEntry(e, now, immediate, finished);
    forall x | x in Flushed(fired) && x.callback == e.callback ensures x == stays {
      FlushedHolds(fired, x);
      var j :| 0 <= j < |fired| && fired[j] == x;
      assert entries[j].callback == e.callback;
    }
  }

  ghost function IndexOf(entries: seq<Entry>, e: Entry): (i: nat)
    requires e in entries
    ensures i < |entries| && entries[i] == e
  {
    var i :| 0 <= i < |entries| && entries[i] == e;
    i
  }

  // Nothing else is in the queue then.
  lemma FiredSource(entries: seq<Entry>, now: real, immediate: bool, finished: (Callback, real) -> bool, x: Entry)
    requires x in Flushed(Fired(entries, now, immediate, finished))
    ensures !x.flush && exists e :: e in entries && x == e.(flush := false)
  {
    var fired := Fired(entries, now, immediate, finished);
    FlushedHolds(fired, x);
    var j :| 0 <= j < |fired| && fired[j] == x;
    assert entries[j] in entries && x == entries[j].(flush := false);
  }

  lemma FiredExactly(entries: seq<Entry>, now: real, immediate: bool, finished: (Callback, real) -> bool)
    requires OnePerCallback(entries)
    ensures var after := Flushed(Fired(entries, now, immediate, finished));
            forall e | e in entries && !e.flush ::
              e in after <==> !((if immediate then e.delay == Finite(0.0)
                                 else e.delay.Finite? && e.since + e.delay.value <= now)
                                && finished(e.callback, now - e.since))
  {
    forall e | e in entries && !e.flush
      ensures e in Flushed(Fired(entries, now, immediate, finished)) <==>
                !((if immediate then e.delay == Finite(0.0) else e.delay.Finite? && e.since + e.delay.value <= now)
                  && finished(e.callback, now - e.since))
    {
      FiredStays(entries, now, immediate, finished, e);
    }
  }

  // When the first of the timers that stay is due.
  function FirstDue(entries: seq<Entry>): Extended {
    if entries == [] then Infinity
    else if entries[0].flush then FirstDue(entries[1..])
    else Earlier(Due(entries[0]), FirstDue(entries[1..]))
  }

  lemma {:induction false} FlushedConcat(a: seq<Entry>, b: seq<Entry>)
    ensures Flushed(a + b) == Flushed(a) + Flushed(b)
  {
    if a == [] {
      assert a + b == b;
    } else {
      FlushedConcat(a[1..], b);
      assert (a + b)[0] == a[0] && (a + b)[1..] == a[1..] + b;
      var first := if a[0].flush then [] else [a[0]];
      assert (first + Flushed(a[1..])) + Flushed(b) == first + (Flushed(a[1..]) + Flushed(b));
    }
  }

  lemma {:induction false} FlushedHolds(entries: seq<Entry>, e: Entry)
    ensures e in Flushed(entries) <==> e in entries && !e.flush
  {
    if entries != [] {
      FlushedHolds(entries[1..], e);
      assert entries == [entries[0]] + entries[1..];
    }
  }

  lemma {:induction false} FirstDueIsMinimum(entries: seq<Entry>)
    ensures forall e | e in entries && !e.flush && e.delay.Finite? ::
              FirstDue(entries).Finite? && FirstDue(entries).value <= e.since + e.delay.value
    ensures FirstDue(entries).Finite? ==>
              exists e :: e in entries && !e.flush && e.delay.Finite?
                && FirstDue(entries).value == e.since + e.delay.value
  {
    if entries != [] {
      FirstDueIsMinimum(entries[1..]);
    }
  }

  lemma FirstDueOfFired(entries: seq<Entry>, now: real, immediate: bool, finished: (Callback, real) -> bool)
    ensures var fired := Fired(entries, now, immediate, finished);
            var due, after := FirstDue(fired), Flushed(fired);
            && (forall e | e in after && e.delay.Finite? :: due.Finite? && due.value <= e.since + e.delay.value)
            && (due.Finite? ==> exists e :: e in after && e.delay.Finite? && due.value == e.since + e.delay.value)
  {
    var fired := Fired(entries, now, immediate, finished);
    FirstDueIsMinimum(fired);
    forall e | e in Flushed(fired) && e.delay.Finite?
      ensures FirstDue(fired).Finite? && FirstDue(fired).value <= e.since + e.delay.value
    {
      FlushedHolds(fired, e);
    }
    if FirstDue(fired).Finite? {
      var e :| e in fired && !e.flush && e.delay.Finite? && FirstDue(fired).value == e.since + e.delay.value;
      FlushedHolds(fired, e);
    }
  }

  // What Flush has still to do: the first n entries stay, the others are to be seen.
  ghost predicate Flushes(entries: seq<Entry>, n: nat, due: Extended, all: seq<Entry>) {
    && n <= |entries|
    && entries[..n] + Flushed(entries[n..]) == Flushed(all)
    && Earlier(due, FirstDue(entries[n..])) == FirstDue(all)
  }

  lemma FlushNext(entries: seq<Entry>, n: nat, due: Extended, all: seq<Entry>)
    requires n < |entries| && Flushes(entries, n, due, all)
    ensures entries[n].flush ==> Flushes(Without(entries, n), n, due, all)
    ensures !entries[n].flush ==> Flushes(entries, n + 1, Earlier(due, Due(entries[n])), all)
  {
    assert entries[n..][1..] == entries[n + 1..];
    if entries[n].flush {
      var rest := Without(entries, n);
      assert rest[..n] == entries[..n] && rest[n..] == entries[n + 1..];
    } else {
      assert entries[..n + 1] == entries[..n] + [entries[n]];
    }
  }

  ghost function Without<T>(s: seq<T>, i: nat): seq<T>
    requires i < |s|
  {
    s[..i] + s[i + 1..]
  }

  // ---- The queue itself ----

  // A place in the list: the timer there, its id and its entry.
  datatype Place = Place(timer: Timer, id: nat, entry: Entry)

  ghost function At(places: seq<Place>, i: nat): Timer? {
    if i < |places| then places[i].timer else null
  }

  ghost predicate Holds(places: seq<Place>, i: nat)
    requires i < |places|
    reads places[i].timer, places[i].timer.callback
  {
    var t := places[i].timer;
    && t.next == At(places, i + 1)
    && Entry(t.callback, t.since, t.delay, t.flush) == places[i].entry
    && t.callback.id == Some(places[i].id)
  }

  // The table has the timers of the list and no others.
  ghost predicate Tabled(byId: map<nat, Timer>, lastId: nat, places: seq<Place>) {
    && (forall i | 0 <= i < |places| :: places[i].id in byId && byId[places[i].id] == places[i].timer)
    && (forall id | id in byId :: id <= lastId)
    && (forall id {:trigger HasId(places, id)} | id in byId :: HasId(places, id))
    && (forall i, j {:trigger Apart(places, i, j)} | 0 <= i < j < |places| :: Apart(places, i, j))
  }

  ghost predicate Apart(places: seq<Place>, i: nat, j: nat)
    requires i < |places| && j < |places|
  {
    places[i].id != places[j].id
  }

  ghost predicate HasId(places: seq<Place>, id: nat) {
    exists i :: 0 <= i < |places| && places[i].id == id
  }

  ghost function EntriesOf(places: seq<Place>): (entries: seq<Entry>)
    ensures |entries| == |places| && forall i | 0 <= i < |places| :: entries[i] == places[i].entry
  {
    seq(|places|, i requires 0 <= i < |places| => places[i].entry)
  }

  // Where the place j was before place i left.
  function Source(i: nat, j: nat): nat { if j < i then j else j + 1 }

  ghost predicate IsWithout(rest: seq<Place>, places: seq<Place>, i: nat) {
    && i < |places| && |rest| == |places| - 1
    && forall j | 0 <= j < |rest| :: rest[j] == places[Source(i, j)]
  }

  lemma WithoutTabled(byId: map<nat, Timer>, lastId: nat, places: seq<Place>, i: nat)
    requires i < |places| && Tabled(byId, lastId, places)
    ensures IsWithout(Without(places, i), places, i)
    ensures Tabled(byId - {places[i].id}, lastId, Without(places, i))
    ensures EntriesOf(Without(places, i)) == Without(EntriesOf(places), i)
  {
    var rest := Without(places, i);
    forall id | HasId(places, id) && id != places[i].id ensures HasId(rest, id) {
      var j :| 0 <= j < |places| && places[j].id == id;
      assert rest[if j < i then j else j - 1].id == id;
    }
    forall j, k {:trigger Apart(rest, j, k)} | 0 <= j < k < |rest| ensures Apart(rest, j, k) {
      assert Apart(places, Source(i, j), Source(i, k));
    }
    forall j | 0 <= j < |rest| ensures rest[j].id != places[i].id {
      assert if j < i then Apart(places, j, i) else Apart(places, i, j + 1);
    }
  }

  lemma FrontTabled(byId: map<nat, Timer>, lastId: nat, places: seq<Place>, place: Place)
    requires Tabled(byId, lastId, places) && place.id == lastId + 1
    ensures Tabled(byId[place.id := place.timer], place.id, [place] + places)
    ensures EntriesOf([place] + places) == [place.entry] + EntriesOf(places)
  {
    forall id | HasId(places, id) ensures HasId([place] + places, id) {
      var j :| 0 <= j < |places| && places[j].id == id;
      assert ([place] + places)[j + 1].id == id;
    }
    var front := [place] + places;
    assert front[0].id == place.id;
    forall i, j {:trigger Apart(front, i, j)} | 0 <= i < j < |front| ensures Apart(front, i, j) {
      if i > 0 { assert Apart(places, i - 1, j - 1); }
    }
  }

  ghost function Updated(places: seq<Place>, i: nat, entry: Entry): seq<Place>
    requires i < |places|
  {
    places[i := places[i].(entry := entry)]
  }

  lemma UpdatedTabled(byId: map<nat, Timer>, lastId: nat, places: seq<Place>, i: nat, entry: Entry)
    requires Tabled(byId, lastId, places) && i < |places|
    ensures Tabled(byId, lastId, Updated(places, i, entry))
    ensures EntriesOf(Updated(places, i, entry)) == EntriesOf(places)[i := entry]
  {
    var after := Updated(places, i, entry);
    assert forall j | 0 <= j < |places| :: after[j].id == places[j].id;
    forall j, k {:trigger Apart(after, j, k)} | 0 <= j < k < |after| ensures Apart(after, j, k) {
      assert Apart(places, j, k);
    }
    forall id | HasId(places, id) ensures HasId(after, id) {
      var j :| 0 <= j < |places| && places[j].id == id;
      assert after[j].id == id;
    }
  }

  class TimerQueue {
    var queue: Timer?
    var byId: map<nat, Timer>
    var lastId: nat
    ghost var places: seq<Place>
    ghost var repr: set<object>

    // The list and the table hold the same timers, each once.
    ghost predicate Valid()
      reads this, repr
    {
      && this !in repr && queue == At(places, 0) && Tabled(byId, lastId, places)
      && (forall i | 0 <= i < |places| :: places[i].timer in repr && places[i].timer.callback in repr)
      && (forall i {:trigger Holds(places, i)} | 0 <= i < |places| :: Holds(places, i))
    }

    ghost function Entries(): seq<Entry>
      reads this
    {
      EntriesOf(places)
    }

    constructor ()
      ensures Valid() && Entries() == [] && repr == {}
    {
      queue, byId, lastId, places, repr := null, map[], 0, [], {};
    }

    lemma CallbacksOnce()
      requires Valid()
      ensures OnePerCallback(Entries())
    {
      forall i, j | 0 <= i < j < |places| ensures Entries()[i].callback != Entries()[j].callback {
        OnlyPlace(i);
      }
    }

    lemma OnlyPlace(i: nat)
      requires Valid() && i < |places|
      ensures forall j | 0 <= j < |places| && j != i ::
                places[j].timer != places[i].timer && places[j].entry.callback != places[i].entry.callback
    {
      forall j | 0 <= j < |places| && j != i
        ensures places[j].timer != places[i].timer && places[j].entry.callback != places[i].entry.callback
      {
        assert Holds(places, i) && Holds(places, j);
        assert if i < j then Apart(places, i, j) else Apart(places, j, i);
      }
    }

    lemma TableFinds(callback: Callback)
      requires Valid()
      ensures Registers(Entries(), callback) <==>
                callback.id.Some? && callback.id.value in byId && byId[callback.id.value].callback == callback
    {
      if i :| 0 <= i < |places| && Entries()[i].callback == callback {
        assert Holds(places, i);
      }
      if callback.id.Some? && callback.id.value in byId && byId[callback.id.value].callback == callback {
        assert HasId(places, callback.id.value);
        var i :| 0 <= i < |places| && places[i].id == callback.id.value;
        assert Holds(places, i) && Entries()[i].callback == callback;
      }
    }

    // d3.timer.
    method Register(callback: Callback, arguments: Arguments, now: real)
      requires Valid()
      modifies this, repr, callback
      ensures Valid() && fresh(repr - old(repr) - {callback})
      ensures match Resolve(arguments, now)
              case None => Entries() == old(Entries())
              case Some((since, delay)) => Entries() == Registered(old(Entries()), callback, since, delay)
    {
      if Resolve(arguments, now) == None { return; }
      var (since, delay) := Resolve(arguments, now).value;
      TableFinds(callback);
      if callback.id.Some? && callback.id.value in byId && byId[callback.id.value].callback == callback {
        assert HasId(places, callback.id.value);
        ghost var i :| 0 <= i < |places| && places[i].id == callback.id.value;
        Reset(byId[callback.id.value], since, delay, i);
      } else {
        Prepend(callback, since, delay);
      }
    }

    method Reset(timer: Timer, since: real, delay: Extended, ghost i: nat)
      requires Valid() && i < |places| && places[i].timer == timer
      modifies this`places, timer
      ensures Valid()
      ensures Entries() == Registered(old(Entries()), timer.callback, since, delay)
    {
      OnlyPlace(i);
      assert Holds(places, i) && Entries()[i].callback == timer.callback;
      timer.since := since;
      timer.delay := delay;
      ghost var was := places;
      places := Updated(was, i, was[i].entry.(since := since, delay := delay));
      UpdatedTabled(byId, lastId, was, i, places[i].entry);
      forall j {:trigger Holds(places, j)} | 0 <= j < |places| ensures Holds(places, j) {
        assert old(Holds(was, j));
      }
    }

    method SetFlush(timer: Timer, flush: bool, ghost i: nat)
      requires Valid() && i < |places| && places[i].timer == timer
      modifies this`places, timer`flush
      ensures Valid() && places == Updated(old(places), i, old(places)[i].entry.(flush := flush))
    {
      OnlyPlace(i);
      assert Holds(places, i);
      timer.flush := flush;
      ghost var was := places;
      places := Updated(was, i, was[i].entry.(flush := flush));
      UpdatedTabled(byId, lastId, was, i, places[i].entry);
      forall j {:trigger Holds(places, j)} | 0 <= j < |places| ensures Holds(places, j) {
        assert old(Holds(was, j));
      }
    }

    // The loops of d3_timer_step and d3.timer.flush, which call the callbacks of the
    // timers that are due, or of those without a delay. The result of a callback says
    // whether it has finished.
    method Fire(now: real, immediate: bool, finished: (Callback, real) -> bool)
      requires Valid()
      modifies this`places, repr
      ensures Valid() && repr == old(repr)
      ensures Entries() == Fired(old(Entries()), now, immediate, finished)
    {
      ghost var was, n := Entries(), 0;
      var t1 := queue;
      while t1 != null
        invariant Valid() && t1 == At(places, n) && FiredTo(Entries(), was, n, now, immediate, finished)
        decreases |places| - n
      {
        FireNext(Entries(), was, n, now, immediate, finished);
        t1 := FireOne(t1, now, immediate, finished, n);
        n := n + 1;
      }
    }

    method FireOne(t1: Timer, now: real, immediate: bool, finished: (Callback, real) -> bool, ghost n: nat)
      returns (next: Timer?)
      requires Valid() && n < |places| && places[n].timer == t1
      modifies this`places, t1`flush
      ensures Valid() && next == At(places, n + 1)
      ensures Entries() == old(Entries())[n := FiredEntry(old(Entries())[n], now, immediate, finished)]
    {
      assert Holds(places, n);
      var elapsed := now - t1.since;
      next := t1.next;
      if if immediate then t1.delay == Finite(0.0) else AtMost(t1.delay, Finite(elapsed)) {
        SetFlush(t1, finished(t1.callback, elapsed), n);
      }
    }

    // d3_timer_step without the request for the next frame: the time until which
    // nothing is due.
    method Step(now: real, finished: (Callback, real) -> bool) returns (due: Extended)
      requires Valid()
      modifies this, repr
      ensures Valid() && repr == old(repr)
      ensures Entries() == Flushed(Fired(old(Entries()), now, false, finished))
      ensures forall e | e in old(Entries()) && !e.flush ::
                e in Entries()
                <==> !(e.delay.Finite? && e.since + e.delay.value <= now && finished(e.callback, now - e.since))
      ensures forall e | e in Entries() && e.delay.Finite? :: due.Finite? && due.value <= e.since + e.delay.value
      ensures due.Finite? ==>
                exists e :: e in Entries() && e.delay.Finite? && due.value == e.since + e.delay.value
    {
      CallbacksOnce();
      Fire(now, false, finished);
      due := Flush();
      FiredExactly(old(Entries()), now, false, finished);
      FirstDueOfFired(old(Entries()), now, false, finished);
    }

    // d3.timer.flush.
    method FlushImmediate(now: real, finished: (Callback, real) -> bool)
      requires Valid()
      modifies this, repr
      ensures Valid() && repr == old(repr)
      ensures Entries() == Flushed(Fired(old(Entries()), now, true, finished))
      ensures forall e | e in old(Entries()) && !e.flush ::
                e in Entries() <==> !(e.delay == Finite(0.0) && finished(e.callback, now - e.since))
    {
      CallbacksOnce();
      Fire(now, true, finished);
      var _ := Flush();
      FiredExactly(old(Entries()), now, true, finished);
    }

    method Prepend(callback: Callback, since: real, delay: Extended)
      requires Valid() && !Registers(Entries(), callback)
      modifies this, callback
      ensures Valid() && fresh(repr - old(repr) - {callback})
      ensures Entries() == [Entry(callback, since, delay, false)] + old(Entries())
    {
      var timer := new Timer(callback, since, delay, queue);
      ghost var was, place := places, Place(timer, lastId + 1, Entry(callback, since, delay, false));
      FrontTabled(byId, lastId, was, place);
      lastId := lastId + 1;
      callback.id := Some(lastId);
      queue := timer;
      byId := byId[lastId := timer];
      places := [place] + was;
      repr := repr + {timer, callback};
      forall i {:trigger Holds(places, i)} | 0 <= i < |places| ensures Holds(places, i) {
        if i > 0 { assert old(Holds(was, i - 1)) && Entries()[i].callback != callback; }
      }
    }

    // d3_timer_flush: the timers whose callback has finished leave the list and the
    // table.
    method Flush() returns (due: Extended)
      requires Valid()
      modifies this, repr
      ensures Valid() && repr == old(repr)
      ensures Entries() == Flushed(old(Entries())) && due == FirstDue(old(Entries()))
    {
      ghost var n := 0;
      var t0: Timer?, t1: Timer? := null, queue;
      due := Infinity;
      assert Entries()[0..] == Entries();
      while t1 != null
        invariant Valid() && repr == old(repr) && n <= |places| && t1 == At(places, n)
        invariant t0 == if n == 0 then null else places[n - 1].timer
        invariant Flushes(Entries(), n, due, old(Entries()))
        decreases |places| - n
      {
        assert Holds(places, n);
        FlushNext(Entries(), n, due, old(Entries()));
        if t1.flush {
          t1 := Remove(t0, t1, n);
        } else {
          due := Earlier(due, Plus(t1.since, t1.delay));
          t0, t1, n := t1, t1.next, n + 1;
        }
      }
    }

    // The timer in place i leaves the table and the list.
    method Remove(t0: Timer?, t1: Timer, ghost i: nat) returns (next: Timer?)
      requires Valid() && i < |places| && places[i].timer == t1
      requires t0 == if i == 0 then null else places[i - 1].timer
      modifies this`queue, this`byId, this`places, repr
      ensures Valid() && next == At(places, i) && |places| == |old(places)| - 1
      ensures i > 0 ==> t0 == places[i - 1].timer
      ensures Entries() == Without(old(Entries()), i)
    {
      WithoutTabled(byId, lastId, places, i);
      assert i > 0 ==> places[i - 1].timer in repr;
      next := Unlink(t0, t1, i, Without(places, i));
    }

    method Unlink(t0: Timer?, t1: Timer, ghost i: nat, ghost rest: seq<Place>) returns (next: Timer?)
      requires Valid() && i < |places| && places[i].timer == t1 && IsWithout(rest, places, i)
      requires Tabled(byId - {places[i].id}, lastId, rest)
      requires t0 == if i == 0 then null else places[i - 1].timer
      modifies this`queue, this`byId, this`places, if t0 != null then {t0} else {}
      ensures Valid() && places == rest && next == At(rest, i)
    {
      ghost var was := places;
      if i > 0 { OnlyPlace(i - 1); }
      assert Holds(was, i);
      byId := byId - {t1.callback.id.value};
      next := t1.next;
      if t0 != null {
        t0.next := next;
      } else {
        queue := next;
      }
      places := rest;
      forall j {:trigger Holds(rest, j)} | 0 <= j < |rest| ensures Holds(rest, j) {
        assert old(Holds(was, Source(i, j)));
      }
    }
  }

  // d3.timer looks at how many arguments it is given.
  datatype Arguments = One | Two(delay: Extended) | Three(delay: Extended, since: real)

  function Resolve(arguments: Arguments, now: real): Option<(real, Extended)> {
    match arguments
    case One => Some((now, Finite(0.0)))
    case Two(delay) => if delay.Infinity? then None else Some((now, delay))
    case Three(delay, since) => Some((since, delay))
  }

  // ---- Runs ----

  datatype Event =
    | Called(callback: Callback, arguments: Arguments, at: real)
    | Framed(now: real, finished: (Callback, real) -> bool)
    | FlushedNow(now: real, finished: (Callback, real) -> bool)

  // What Register, Step and FlushImmediate do to the entries.
  ghost function After(entries: seq<Entry>, e: Event): seq<Entry> {
    match e
    case Called(callback, arguments, at) =>
      (match Resolve(arguments, at)
       case None => entries
       case Some((since, delay)) => Registered(entries, callback, since, delay))
    case Framed(now, finished) => Flushed(Fired(entries, now, false, finished))
    case FlushedNow(now, finished) => Flushed(Fired(entries, now, true, finished))
  }

  ghost function Run(entries: seq<Entry>, events: seq<Event>): seq<Entry>
    decreases |events|
  {
    if events == [] then entries else Run(After(entries, events[0]), events[1..])
  }

  ghost predicate Waiting(entries: seq<Entry>, callback: Callback) {
    exists i :: 0 <= i < |entries| && entries[i].callback == callback && !entries[i].flush
  }

  // Whether a timer goes at an event: at a frame once its delay is over, and when the
  // queue is flushed if it has none, provided its callback has finished.
  ghost predicate Ends(e: Event, callback: Callback, since: real, delay: Extended) {
    match e
    case Called(_, _, _) => false
    case Framed(now, finished) =>
      delay.Finite? && since + delay.value <= now && finished(callback, now - since)
    case FlushedNow(now, finished) => delay == Finite(0.0) && finished(callback, now - since)
  }

  // A timer that is not set anew is in the queue, with its time and its delay, until
  // the first event at which it ends, and then its callback has no timer any more.
  lemma {:induction false} RunEndsTimer(entries: seq<Entry>, events: seq<Event>, callback: Callback, since: real,
                                        delay: Extended)
    requires OnePerCallback(entries) && Entry(callback, since, delay, false) in entries
    requires forall e | e in events && e.Called? :: e.callback != callback
    ensures if exists e :: e in events && Ends(e, callback, since, delay)
            then !Registers(Run(entries, events), callback)
            else Entry(callback, since, delay, false) in Run(entries, events)
    decreases |events|
  {
    if events != [] {
      var e, after := events[0], After(entries, events[0]);
      AfterKeepsTimers(entries, e, callback);
      AfterEndsTimer(entries, e, callback, since, delay);
      assert forall f :: f in events <==> f == e || f in events[1..];
      if Ends(e, callback, since, delay) {
        RunStaysOut(after, events[1..], callback);
      } else {
        RunEndsTimer(after, events[1..], callback, since, delay);
      }
    }
  }

  lemma AfterEndsTimer(entries: seq<Entry>, e: Event, callback: Callback, since: real, delay: Extended)
    requires OnePerCallback(entries) && Entry(callback, since, delay, false) in entries
    requires e.Called? ==> e.callback != callback
    ensures if Ends(e, callback, since, delay) then !Registers(After(entries, e), callback)
            else Entry(callback, since, delay, false) in After(entries, e)
  {
    var own := Entry(callback, since, delay, false);
    match e
    case Called(other, arguments, at) =>
      if (var r := Resolve(arguments, at); r.Some?) {
        OthersStay(entries, other, Resolve(arguments, at).value.0, Resolve(arguments, at).value.1, own);
      }
    case Framed(now, finished) => FiredStays(entries, now, false, finished, own);
    case FlushedNow(now, finished) => FiredStays(entries, now, true, finished, own);
  }

  lemma OthersStay(entries: seq<Entry>, registered: Callback, since: real, delay: Extended, own: Entry)
    requires own in entries && own.callback != registered
    ensures own in Registered(entries, registered, since, delay)
  {
    var i := IndexOf(entries, own);
    var after := Registered(entries, registered, since, delay);
    assert after[if Registers(entries, registered) then i else i + 1] == own;
  }

  lemma {:induction false} RunStaysOut(entries: seq<Entry>, events: seq<Event>, callback: Callback)
    requires !Registers(entries, callback) && forall e | e in events && e.Called? :: e.callback != callback
    ensures !Registers(Run(entries, events), callback)
    decreases |events|
  {
    if events != [] {
      AfterStaysOut(entries, events[0], callback);
      RunStaysOut(After(entries, events[0]), events[1..], callback);
    }
  }

  lemma AfterStaysOut(entries: seq<Entry>, e: Event, callback: Callback)
    requires !Registers(entries, callback) && (e.Called? ==> e.callback != callback)
    ensures !Registers(After(entries, e), callback)
  {
    var after := After(entries, e);
    forall j | 0 <= j < |after| ensures after[j].callback != callback {
      if !e.Called? {
        FiredSource(entries, e.now, e.FlushedNow?, e.finished, after[j]);
      }
    }
  }

  // A callback is given a timer without delay from now on, or with its delay from now
  // on or from the given time; two arguments with an infinite delay do nothing.
  lemma CalledSets(entries: seq<Entry>, callback: Callback, arguments: Arguments, at: real)
    requires OnePerCallback(entries) && forall e | e in entries :: !e.flush
    ensures var after := After(entries, Called(callback, arguments, at));
            match arguments
            case One => Entry(callback, at, Finite(0.0), false) in after
            case Two(Infinity) => after == entries
            case Two(delay) => Entry(callback, at, delay, false) in after
            case Three(delay, since) => Entry(callback, since, delay, false) in after
  {
    if (var r := Resolve(arguments, at); r.Some?) {
      var (since, delay) := Resolve(arguments, at).value;
      var after := Registered(entries, callback, since, delay);
      if Registers(entries, callback) {
        var i :| 0 <= i < |entries| && entries[i].callback == callback;
        assert after[i] == Entry(callback, since, delay, false);
      } else {
        assert after[0] == Entry(callback, since, delay, false);
      }
    }
  }

  ghost predicate Finishes(e: Event, callback: Callback) {
    !e.Called? && exists elapsed :: e.finished(callback, elapsed)
  }

  lemma {:induction false} FlushedOnePerCallback(entries: seq<Entry>)
    requires OnePerCallback(entries)
    ensures OnePerCallback(Flushed(entries))
  {
    if entries != [] {
      FlushedOnePerCallback(entries[1..]);
      var rest := Flushed(entries[1..]);
      forall j | 0 <= j < |rest| ensures rest[j].callback != entries[0].callback {
        FlushedHolds(entries[1..], rest[j]);
        var k :| 0 <= k < |entries[1..]| && entries[1..][k] == rest[j];
        assert entries[k + 1] == rest[j];
      }
    }
  }

  lemma FlushedWaiting(entries: seq<Entry>, callback: Callback)
    requires Waiting(entries, callback)
    ensures Waiting(Flushed(entries), callback)
  {
    var i :| 0 <= i < |entries| && entries[i].callback == callback && !entries[i].flush;
    FlushedHolds(entries, entries[i]);
    assert entries[i] in Flushed(entries);
  }

  // However timers are registered and flushed, no callback ever has two of them, and
  // one that has not finished keeps the one it has.
  lemma {:induction false} RunKeepsTimers(entries: seq<Entry>, events: seq<Event>, callback: Callback)
    requires OnePerCallback(entries)
    ensures OnePerCallback(Run(entries, events))
    ensures Waiting(entries, callback) && (forall e | e in events :: !Finishes(e, callback)) ==>
              Waiting(Run(entries, events), callback)
    decreases |events|
  {
    if events != [] {
      AfterKeepsTimers(entries, events[0], callback);
      RunKeepsTimers(After(entries, events[0]), events[1..], callback);
    }
  }

  lemma AfterKeepsTimers(entries: seq<Entry>, e: Event, callback: Callback)
    requires OnePerCallback(entries)
    ensures OnePerCallback(After(entries, e))
    ensures Waiting(entries, callback) && !Finishes(e, callback) ==> Waiting(After(entries, e), callback)
  {
    if e.Called? {
      if (var r := Resolve(e.arguments, e.at); r.Some?) {
        var (since, delay) := Resolve(e.arguments, e.at).value;
        RegisteredKeepsTimers(entries, e.callback, since, delay, callback);
      }
    } else {
      var fired := Fired(entries, e.now, e.FlushedNow?, e.finished);
      FlushedOnePerCallback(fired);
      if Waiting(entries, callback) && !Finishes(e, callback) {
        var i :| 0 <= i < |entries| && entries[i].callback == callback && !entries[i].flush;
        assert fired[i].callback == callback && !fired[i].flush;
        FlushedWaiting(fired, callback);
      }
    }
  }

  lemma RegisteredKeepsTimers(entries: seq<Entry>, registered: Callback, since: real, delay: Extended,
                              callback: Callback)
    requires OnePerCallback(entries)
    ensures OnePerCallback(Registered(entries, registered, since, delay))
    ensures Waiting(entries, callback) ==> Waiting(Registered(entries, registered, since, delay), callback)
  {
    var after := Registered(entries, registered, since, delay);
    if Waiting(entries, callback) {
      var i :| 0 <= i < |entries| && entries[i].callback == callback && !entries[i].flush;
      var j := if Registers(entries, registered) then i else i + 1;
      assert after[j].callback == callback && !after[j].flush;
    }
  }
}
