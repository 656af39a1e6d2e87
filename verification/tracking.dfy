/** The `browsers_change` listener: it keeps the last accepted map from
    connection id to browser name and announces the ids that appeared as
    `browserConnected` and the ids that vanished as `browserDisconnected`. */
module BrowserTracking {
  import opened Base

  /** One captured browser as the event hands it over; `None` stands for a
      missing (undefined or null) property. */
  datatype Captured = Captured(id: Option<string>, name: Option<string>)

  /** The event argument: Karma also emits the event with a single browser
      object, which has no `forEach` and is ignored. */
  datatype Change = BrowserList(browsers: seq<Captured>) | NotAList

  datatype EventType = BrowserConnected | BrowserDisconnected

  /** The `{id, name}` object sent with an event. */
  datatype Event = Event(kind: EventType, id: string, name: string)

  /** The listener's reaction: the map it keeps afterwards and the events of
      the two batches, connections first. */
  datatype Reaction = Reaction(known: map<string, string>, connected: set<Event>, disconnected: set<Event>)

  /** JavaScript truthiness of a string-or-missing value. */
  predicate Truthy(v: Option<string>) {
    v.Some? && v.value != ""
  }

  /** An entry that does not stop the listener: both properties truthy and
      different from each other. */
  predicate Acceptable(b: Captured) {
    Truthy(b.id) && Truthy(b.name) && b.id != b.name
  }

  predicate AllAcceptable(bs: seq<Captured>) {
    forall i :: 0 <= i < |bs| ==> Acceptable(bs[i])
  }

  /** The map built by the `forEach`: each entry sets its id's name. */
  function ConnectionMap(bs: seq<Captured>): (m: map<string, string>)
    requires AllAcceptable(bs)
    decreases |bs|
  {
    if bs == [] then map[]
    else
      var last := bs[|bs| - 1];
      ConnectionMap(bs[..|bs| - 1])[last.id.value := last.name.value]
  }

  /** The map holds exactly the ids of the list. */
  lemma {:induction false} ConnectionMapKeys(bs: seq<Captured>)
    requires AllAcceptable(bs)
    ensures forall id :: id in ConnectionMap(bs) <==> exists i :: 0 <= i < |bs| && bs[i].id == Some(id)
    decreases |bs|
  {
    if bs != [] {
      var front := bs[..|bs| - 1];
      var last := bs[|bs| - 1];
      ConnectionMapKeys(front);
      var m := ConnectionMap(bs);
      forall id | id in m ensures exists i :: 0 <= i < |bs| && bs[i].id == Some(id) {
        if id != last.id.value {
          var i :| 0 <= i < |front| && front[i].id == Some(id);
          assert bs[i] == front[i];
        } else {
          assert bs[|bs| - 1].id == Some(id);
        }
      }
      forall id | exists i :: 0 <= i < |bs| && bs[i].id == Some(id) ensures id in m {
        var i :| 0 <= i < |bs| && bs[i].id == Some(id);
        if i < |bs| - 1 {
          assert front[i] == bs[i];
        }
      }
    }
  }

  /** Each id is mapped to the name of the last entry carrying it. */
  lemma {:induction false} ConnectionMapLastWins(bs: seq<Captured>, i: nat)
    requires AllAcceptable(bs) && i < |bs|
    requires forall j :: i < j < |bs| ==> bs[j].id != bs[i].id
    ensures bs[i].id.value in ConnectionMap(bs) && ConnectionMap(bs)[bs[i].id.value] == bs[i].name.value
    decreases |bs|
  {
    if i < |bs| - 1 {
      var front := bs[..|bs| - 1];
      assert bs[i] == front[i];
      assert forall j :: i < j < |front| ==> front[j] == bs[j];
      assert bs[|bs| - 1].id != bs[i].id;
      ConnectionMapLastWins(front, i);
    }
  }

  /** `sendBrowserEvents(kind, a, b)`: one event per id of `a` missing from
      `b`, carrying `a`'s name for it. */
  function Announce(kind: EventType, a: map<string, string>, b: map<string, string>): (evs: set<Event>)
    ensures forall e :: e in evs <==> e.kind == kind && e.id in a && e.id !in b && e.name == a[e.id]
  {
    set id | id in a && id !in b :: Event(kind, id, a[id])
  }

  /** The listener. */
  function OnBrowsersChange(known: map<string, string>, change: Change): (r: Reaction)
    ensures change.NotAList? || !AllAcceptable(change.browsers) ==>
      r == Reaction(known, {}, {})
    ensures change.BrowserList? && AllAcceptable(change.browsers) ==>
      r.known == ConnectionMap(change.browsers)
  {
    if change.NotAList? then Reaction(known, {}, {})
    else if !AllAcceptable(change.browsers) then Reaction(known, {}, {})
    else
      var current := ConnectionMap(change.browsers);
      Reaction(current, Announce(BrowserConnected, current, known), Announce(BrowserDisconnected, known, current))
  }

  function Ids(evs: set<Event>): set<string> {
    set e | e in evs :: e.id
  }

  /** The events describe exactly the difference between the old and the new
      map: connected ids are the new ones, disconnected ids the dropped ones,
      each named as in the map it comes from, and no id is in both batches. */
  lemma {:induction false} ReactionIsDifference(known: map<string, string>, bs: seq<Captured>)
    requires AllAcceptable(bs)
    ensures var r := OnBrowsersChange(known, BrowserList(bs));
      && Ids(r.connected) == r.known.Keys - known.Keys
      && Ids(r.disconnected) == known.Keys - r.known.Keys
      && Ids(r.connected) !! Ids(r.disconnected)
      && (forall e :: e in r.connected <==> e.kind == BrowserConnected && e.id in r.known
                                             && e.id !in known && e.name == r.known[e.id])
      && (forall e :: e in r.disconnected <==> e.kind == BrowserDisconnected && e.id in known
                                                && e.id !in r.known && e.name == known[e.id])
  {
    var r := OnBrowsersChange(known, BrowserList(bs));
    AnnouncedIds(BrowserConnected, r.known, known);
    AnnouncedIds(BrowserDisconnected, known, r.known);
  }

  lemma AnnouncedIds(kind: EventType, a: map<string, string>, b: map<string, string>)
    ensures Ids(Announce(kind, a, b)) == a.Keys - b.Keys
    ensures forall e :: e in Announce(kind, a, b) <==> e.kind == kind && e.id in a && e.id !in b && e.name == a[e.id]
  {
    var evs := Announce(kind, a, b);
    forall id | id in a.Keys - b.Keys ensures id in Ids(evs) {
      assert Event(kind, id, a[id]) in evs;
    }
  }

  /** Replaying the announced events onto the old id set gives the new one. */
  lemma {:induction false} EventsReconcile(known: map<string, string>, bs: seq<Captured>)
    requires AllAcceptable(bs)
    ensures var r := OnBrowsersChange(known, BrowserList(bs));
      (known.Keys - Ids(r.disconnected)) + Ids(r.connected) == r.known.Keys
  {
    ReactionIsDifference(known, bs);
  }

  /** The same list twice: the second time announces nothing. */
  lemma {:induction false} RepeatIsSilent(known: map<string, string>, change: Change)
    ensures var r := OnBrowsersChange(known, change);
      OnBrowsersChange(r.known, change) == Reaction(r.known, {}, {})
  {
    var r := OnBrowsersChange(known, change);
    if change.BrowserList? && AllAcceptable(change.browsers) {
      var r2 := OnBrowsersChange(r.known, change);
      AnnouncedIds(BrowserConnected, r.known, r.known);
      AnnouncedIds(BrowserDisconnected, r.known, r.known);
      assert r2.connected == {};
      assert r2.disconnected == {};
    }
  }

  /** A browser whose id equals its name (an entry Karma has not yet filled in)
      freezes the tracker for this change, whatever the other entries say. */
  lemma UnfilledEntryFreezes(known: map<string, string>, bs: seq<Captured>, i: nat)
    requires i < |bs| && bs[i].id == bs[i].name
    ensures OnBrowsersChange(known, BrowserList(bs)) == Reaction(known, {}, {})
  {
    assert !Acceptable(bs[i]);
  }
}
