/**
 * Area queries and explosions (code/addons/physics: physicsserver.cc, explosionareaimpulse.cc): contacts
 * are turned into distinct entities or bodies by stamping each one met with a number fresh for the call.
 * All calls share one 32-bit counter, PhysicsServer::UniqueStamp.
 */
module Stamps {
  import opened Vectors

  /** The counter is a 32-bit unsigned integer. */
  const WRAP: nat := 0x1_0000_0000

  /** GetUniqueStamp: ++UniqueStamp */
  function Next(counter: nat): nat {
    (counter + 1) % WRAP
  }

  /** What a contact's entity id or body id resolves to. */
  datatype Contact<T> = Nothing | Hit(target: T)

  /** Objects that were never stamped hold the 0 of their constructor. */
  function StampOf<T>(stamps: map<T, nat>, x: T): nat {
    if x in stamps then stamps[x] else 0
  }

  // ----- one call -----

  /** The contacts that were taken, as positions, and the stamps left. */
  datatype Walk<T> = Walk(taken: seq<nat>, stamps: map<T, nat>)

  /** The loop over the contacts. */
  function WalkOver<T(==)>(contacts: seq<Contact<T>>, stamps: map<T, nat>, stamp: nat): Walk<T> {
    if contacts == [] then Walk([], stamps)
    else
      var n := |contacts| - 1;
      var w := WalkOver(contacts[..n], stamps, stamp);
      if contacts[n].Hit? && StampOf(w.stamps, contacts[n].target) != stamp
      then Walk(w.taken + [n], w.stamps[contacts[n].target := stamp])
      else w
  }

  /** The first contact with its object. */
  predicate IsFirst<T(==)>(contacts: seq<Contact<T>>, i: nat)
    requires i < |contacts|
  {
    contacts[i].Hit? && contacts[i] !in contacts[..i]
  }

  /** Every object met holds the stamp afterwards, every other one what it held. */
  lemma {:induction false} WalkStamps<T>(contacts: seq<Contact<T>>, stamps: map<T, nat>, stamp: nat, x: T)
    ensures StampOf(WalkOver(contacts, stamps, stamp).stamps, x) == if Hit(x) in contacts then stamp else StampOf(stamps, x)
  {
    if contacts != [] {
      var n := |contacts| - 1;
      WalkStamps(contacts[..n], stamps, stamp, x);
      assert contacts == contacts[..n] + [contacts[n]];
    }
  }

  /** Taken are exactly the first contacts with objects that did not hold the stamp before, in order. */
  lemma {:induction false} WalkTakes<T>(contacts: seq<Contact<T>>, stamps: map<T, nat>, stamp: nat)
    ensures var taken := WalkOver(contacts, stamps, stamp).taken;
      && (forall k :: k in taken ==> k < |contacts|)
      && (forall i :: 0 <= i < |contacts| ==>
           (i in taken <==> IsFirst(contacts, i) && StampOf(stamps, contacts[i].target) != stamp))
      && (forall i, j :: 0 <= i < j < |taken| ==> taken[i] < taken[j])
  {
    if contacts != [] {
      var n := |contacts| - 1;
      WalkTakes(contacts[..n], stamps, stamp);
      var prior := contacts[..n];
      forall i | 0 <= i < n ensures IsFirst(contacts, i) <==> IsFirst(prior, i) {
        assert prior[..i] == contacts[..i];
      }
      if contacts[n].Hit? {
        WalkStamps(prior, stamps, stamp, contacts[n].target);
      }
      var taken := WalkOver(prior, stamps, stamp).taken;
      assert forall i :: 0 <= i < |taken| ==> taken[i] in taken;
    }
  }

  /** No object is taken twice. */
  lemma TakenOnce<T>(contacts: seq<Contact<T>>, stamps: map<T, nat>, stamp: nat, i: nat, j: nat)
    requires var taken := WalkOver(contacts, stamps, stamp).taken; i < |taken| && j < |taken|
    ensures var taken := WalkOver(contacts, stamps, stamp).taken;
      && taken[i] < |contacts| && taken[j] < |contacts|
      && (contacts[taken[i]] == contacts[taken[j]] ==> i == j)
  {
    WalkTakes(contacts, stamps, stamp);
    var taken := WalkOver(contacts, stamps, stamp).taken;
    assert taken[i] in taken && taken[j] in taken;
    if taken[i] < taken[j] {
      FirstsDiffer(contacts, taken[i], taken[j]);
    } else if taken[j] < taken[i] {
      FirstsDiffer(contacts, taken[j], taken[i]);
    }
  }

  lemma FirstsDiffer<T>(contacts: seq<Contact<T>>, i: nat, j: nat)
    requires i < j < |contacts| && IsFirst(contacts, j)
    ensures contacts[i] != contacts[j]
  {
    assert contacts[..j][i] == contacts[i];
  }

  /** Only the stamps of the objects met matter. */
  lemma {:induction false} WalkLocal<T>(contacts: seq<Contact<T>>, stamps: map<T, nat>, others: map<T, nat>, stamp: nat)
    requires forall i :: 0 <= i < |contacts| && contacts[i].Hit? ==>
      StampOf(stamps, contacts[i].target) == StampOf(others, contacts[i].target)
    ensures WalkOver(contacts, stamps, stamp).taken == WalkOver(contacts, others, stamp).taken
  {
    if contacts != [] {
      var n := |contacts| - 1;
      WalkLocal(contacts[..n], stamps, others, stamp);
      if contacts[n].Hit? {
        WalkStamps(contacts[..n], stamps, stamp, contacts[n].target);
        WalkStamps(contacts[..n], others, stamp, contacts[n].target);
      }
    }
  }

  // ----- any run of calls -----

  datatype World<T> = World(counter: nat, stamps: map<T, nat>)

  /** The world after any calls, given by their contacts, in any order of queries and explosions. */
  function After<T(==)>(history: seq<seq<Contact<T>>>): World<T> {
    if history == [] then World(0, map[])
    else
      var w := After(history[..|history| - 1]);
      var stamp := Next(w.counter);
      World(stamp, WalkOver(history[|history| - 1], w.stamps, stamp).stamps)
  }

  /** The number of the last call that met x, counted from 1; 0 if none did. */
  function LastMet<T(==)>(history: seq<seq<Contact<T>>>, x: T): (n: nat)
    ensures n <= |history|
  {
    if history == [] then 0
    else if Hit(x) in history[|history| - 1] then |history|
    else LastMet(history[..|history| - 1], x)
  }

  /** Each object holds the number of the last call that met it, as far as 32 bits tell. */
  lemma {:induction false} StampsAreLastMet<T>(history: seq<seq<Contact<T>>>, x: T)
    ensures After(history).counter == |history| % 0x1_0000_0000
    ensures StampOf(After(history).stamps, x) == LastMet(history, x) % 0x1_0000_0000
  {
    hide WalkOver;
    if history != [] {
      var w := After(history[..|history| - 1]);
      NextCounts(|history| - 1);
      StampsAreLastMet(history[..|history| - 1], x);
      WalkStamps(history[|history| - 1], w.stamps, Next(w.counter), x);
    }
  }

  lemma NextCounts(n: nat)
    ensures Next(n % WRAP) == (n + 1) % WRAP
  {
  }

  /** The contacts the next call takes. */
  function Taken<T(==)>(history: seq<seq<Contact<T>>>, contacts: seq<Contact<T>>): seq<nat> {
    WalkOver(contacts, After(history).stamps, Next(After(history).counter)).taken
  }

  /** The number of calls since one met x, this one included. */
  function Age<T(==)>(history: seq<seq<Contact<T>>>, x: T): (n: nat)
    ensures 0 < n <= |history| + 1
  {
    |history| + 1 - LastMet(history, x)
  }

  /**
   * A call takes the first contact with an object exactly when it was not last met a multiple of 2^32 calls
   * before; an object never met counts as met by a call number 0, whenever it was created.
   */
  lemma NextCallTakes<T>(history: seq<seq<Contact<T>>>, contacts: seq<Contact<T>>, i: nat)
    requires i < |contacts|
    ensures i in Taken(history, contacts)
       <==> IsFirst(contacts, i) && Age(history, contacts[i].target) % 0x1_0000_0000 != 0
  {
    hide WalkOver, After, LastMet;
    WalkTakes(contacts, After(history).stamps, Next(After(history).counter));
    if IsFirst(contacts, i) {
      StampsAreLastMet(history, contacts[i].target);
      NextCounts(|history|);
      SameRemainder(|history| + 1, LastMet(history, contacts[i].target));
    }
  }

  lemma SameRemainder(a: nat, b: nat)
    requires b < a
    ensures b % WRAP == a % WRAP <==> (a - b) % WRAP == 0
  {
  }

  /** An object never met is missed exactly by the calls whose number is a multiple of 2^32. */
  lemma NeverMetIsMissedIff<T>(history: seq<seq<Contact<T>>>, contacts: seq<Contact<T>>, i: nat)
    requires i < |contacts| && IsFirst(contacts, i) && LastMet(history, contacts[i].target) == 0
    ensures i !in Taken(history, contacts) <==> (|history| + 1) % 0x1_0000_0000 == 0
  {
    hide Taken;
    NextCallTakes(history, contacts, i);
  }

  /** So an object created just before call number 2^32 is missed by that call. */
  lemma NewObjectMissed<T>(history: seq<seq<Contact<T>>>, x: T)
    requires |history| == 0x1_0000_0000 - 1 && forall k :: 0 <= k < |history| ==> Hit(x) !in history[k]
    ensures Taken(history, [Hit(x)]) == []
  {
    var contacts := [Hit(x)];
    NotMet(history, x);
    assert contacts[..0] == [];
    NeverMetIsMissedIff(history, contacts, 0);
    WalkTakes(contacts, After(history).stamps, Next(After(history).counter));
    HasFirst(Taken(history, contacts));
  }

  lemma HasFirst(taken: seq<nat>)
    ensures taken == [] || taken[0] in taken
  {
  }

  lemma {:induction false} NotMet<T>(history: seq<seq<Contact<T>>>, x: T)
    requires forall k :: 0 <= k < |history| ==> Hit(x) !in history[k]
    ensures LastMet(history, x) == 0
  {
    if history != [] {
      NotMet(history[..|history| - 1], x);
    }
  }

  /** So the answer is complete if and only if no object met has such an age. */
  lemma NextCallCompleteIff<T>(history: seq<seq<Contact<T>>>, contacts: seq<Contact<T>>)
    ensures (forall i :: 0 <= i < |contacts| && IsFirst(contacts, i) ==> i in Taken(history, contacts))
       <==> (forall i :: 0 <= i < |contacts| && contacts[i].Hit? ==> Age(history, contacts[i].target) % 0x1_0000_0000 != 0)
  {
    hide Taken;
    forall i | 0 <= i < |contacts|
      ensures i in Taken(history, contacts) <==> IsFirst(contacts, i) && Age(history, contacts[i].target) % 0x1_0000_0000 != 0
    {
      NextCallTakes(history, contacts, i);
    }
    forall i | 0 <= i < |contacts| && contacts[i].Hit?
      ensures exists f :: 0 <= f <= i && contacts[f] == contacts[i] && IsFirst(contacts, f)
    {
      FirstExists(contacts, i);
    }
  }

  lemma {:induction false} FirstExists<T>(contacts: seq<Contact<T>>, i: nat)
    requires i < |contacts| && contacts[i].Hit?
    ensures exists f :: 0 <= f <= i && contacts[f] == contacts[i] && IsFirst(contacts, f)
  {
    if IsFirst(contacts, i) {
    } else {
      var j :| 0 <= j < i && contacts[..i][j] == contacts[i];
      FirstExists(contacts, j);
    }
  }

  /** Short of 2^32 calls every answer is complete. */
  lemma CompleteBeforeWrap<T>(history: seq<seq<Contact<T>>>, contacts: seq<Contact<T>>, i: nat)
    requires |history| + 1 < 0x1_0000_0000 && i < |contacts|
    ensures i in Taken(history, contacts) <==> IsFirst(contacts, i)
  {
    NextCallTakes(history, contacts, i);
  }

  // ----- the server -----

  /** A physics entity or a rigid body. */
  class Stamped {
    var stamp: nat

    constructor ()
      ensures stamp == 0
    {
      stamp := 0;
    }
  }

  datatype Impulse = Impulse(body: Stamped, position: V3)

  function Targets(contacts: seq<Contact<Stamped>>): set<Stamped> {
    set c | c in contacts && c.Hit? :: c.target
  }

  lemma HitsAreTargets(contacts: seq<Contact<Stamped>>)
    ensures forall x :: x in Targets(contacts) <==> Hit(x) in contacts
    ensures forall i :: 0 <= i < |contacts| && contacts[i].Hit? ==> contacts[i].target in Targets(contacts)
  {
    forall i | 0 <= i < |contacts| && contacts[i].Hit? ensures contacts[i].target in Targets(contacts) {
      assert contacts[i] in contacts;
    }
    forall x ensures x in Targets(contacts) <==> Hit(x) in contacts {
      assert x in Targets(contacts) ==> exists c :: c in contacts && c == Hit(x);
    }
  }

  lemma NextWorld<T>(history: seq<seq<Contact<T>>>, contacts: seq<Contact<T>>)
    ensures var (w, stamp) := (After(history), Next(After(history).counter));
      After(history + [contacts]) == World(stamp, WalkOver(contacts, w.stamps, stamp).stamps)
  {
    hide WalkOver, Next;
    assert (history + [contacts])[..|history|] == history;
  }

  ghost function StampsIn(objects: set<Stamped>): map<Stamped, nat>
    reads objects
  {
    map x | x in objects :: x.stamp
  }

  ghost predicate AreHits(contacts: seq<Contact<Stamped>>, taken: seq<nat>) {
    forall i :: 0 <= i < |taken| ==> taken[i] < |contacts| && contacts[taken[i]].Hit?
  }

  /** The objects of the taken contacts. */
  ghost function Entities(contacts: seq<Contact<Stamped>>, taken: seq<nat>): seq<Stamped>
    requires AreHits(contacts, taken)
  {
    seq(|taken|, i requires 0 <= i < |taken| => contacts[taken[i]].target)
  }

  /** The impulses on the bodies of the taken contacts, where these touch. */
  ghost function Impulses(contacts: seq<Contact<Stamped>>, positions: seq<V3>, taken: seq<nat>): seq<Impulse>
    requires AreHits(contacts, taken) && |positions| == |contacts|
  {
    seq(|taken|, i requires 0 <= i < |taken| => Impulse(contacts[taken[i]].target, positions[taken[i]]))
  }

  /** No body gets two impulses from one explosion. */
  lemma PushedOnce(contacts: seq<Contact<Stamped>>, positions: seq<V3>, stamps: map<Stamped, nat>, stamp: nat, i: nat, j: nat)
    requires |positions| == |contacts|
    requires AreHits(contacts, WalkOver(contacts, stamps, stamp).taken)
    requires var impulses := Impulses(contacts, positions, WalkOver(contacts, stamps, stamp).taken);
      i < |impulses| && j < |impulses| && impulses[i].body == impulses[j].body
    ensures i == j
  {
    TakenOnce(contacts, stamps, stamp, i, j);
  }

  class PhysicsServer {
    var uniqueStamp: nat
    /** The contacts of all calls made so far. */
    ghost var history: seq<seq<Contact<Stamped>>>

    constructor ()
      ensures uniqueStamp == 0 && history == []
    {
      uniqueStamp := 0;
      history := [];
    }

    /** Counter and stamps are those of the history; new objects, stamped 0, fit in at any time. */
    ghost predicate InStep(objects: set<Stamped>)
      reads this, objects
    {
      && uniqueStamp == After(history).counter
      && forall x :: x in objects ==> x.stamp == StampOf(After(history).stamps, x)
    }

    /** What the loops over the contacts have done keeps server and objects in step. */
    ghost method Record(contacts: seq<Contact<Stamped>>, before: map<Stamped, nat>, objects: set<Stamped>)
      requires Targets(contacts) <= objects && before.Keys == Targets(contacts)
      requires uniqueStamp == Next(After(history).counter)
      requires forall x :: x in Targets(contacts) ==> before[x] == StampOf(After(history).stamps, x)
      requires StampsIn(Targets(contacts)) == WalkOver(contacts, before, uniqueStamp).stamps
      requires forall x :: x in objects && x !in Targets(contacts) ==> x.stamp == StampOf(After(history).stamps, x)
      modifies this`history
      ensures history == old(history) + [contacts] && InStep(objects)
      ensures WalkOver(contacts, before, uniqueStamp).taken == Taken(old(history), contacts)
    {
      hide WalkOver, After, Next, AreHits, Entities, Impulses;
      var stamps := After(history).stamps;
      HitsAreTargets(contacts);
      WalkLocal(contacts, before, stamps, uniqueStamp);
      forall x | x in objects
        ensures x.stamp == StampOf(WalkOver(contacts, stamps, uniqueStamp).stamps, x)
      {
        WalkStamps(contacts, stamps, uniqueStamp, x);
        WalkStamps(contacts, before, uniqueStamp, x);
        if x in Targets(contacts) {
          assert StampsIn(Targets(contacts))[x] == x.stamp;
        }
      }
      NextWorld(history, contacts);
      history := history + [contacts];
    }

    method GetUniqueStamp() returns (stamp: nat)
      modifies this`uniqueStamp
      ensures stamp == uniqueStamp == Next(old(uniqueStamp))
    {
      uniqueStamp := (uniqueStamp + 1) % WRAP;
      stamp := uniqueStamp;
    }

    /** GetEntitiesInSphere and GetEntitiesInBox, from the contacts of the collision on. */
    method GetEntities(contacts: seq<Contact<Stamped>>, result: seq<Stamped>, ghost objects: set<Stamped>)
      returns (newResult: seq<Stamped>, count: nat)
      requires Targets(contacts) <= objects && InStep(objects)
      modifies this, Targets(contacts)`stamp
      ensures history == old(history) + [contacts] && InStep(objects)
      ensures var taken := Taken(old(history), contacts);
        AreHits(contacts, taken) && newResult == result + Entities(contacts, taken) && count == |taken|
      ensures var taken := Taken(old(history), contacts);
        forall k :: 0 <= k < |taken| ==> newResult[|result| + k] == contacts[taken[k]].target
    {
      hide After;
      var stamp := GetUniqueStamp();
      newResult := result;
      ghost var before := StampsIn(Targets(contacts));
      for i := 0 to |contacts|
        invariant uniqueStamp == stamp && history == old(history)
        invariant forall x :: x in objects && x !in Targets(contacts) ==> x.stamp == old(x.stamp)
        invariant var w := WalkOver(contacts[..i], before, stamp);
          && AreHits(contacts, w.taken)
          && newResult == result + Entities(contacts, w.taken)
          && StampsIn(Targets(contacts)) == w.stamps
      {
        assert contacts[..i + 1][..i] == contacts[..i];
        if contacts[i].Hit? {
          var entity := contacts[i].target;
          assert contacts[i] in contacts && entity in Targets(contacts);
          if entity.stamp != stamp {
            entity.stamp := stamp;
            newResult := newResult + [entity];
          }
        }
      }
      assert contacts[..|contacts|] == contacts;
      count := |newResult| - |result|;
      Record(contacts, before, objects);
    }

    /** ExplosionAreaImpulse::Apply from the contacts on; the strength of the impulses is not part of this model. */
    method Apply(contacts: seq<Contact<Stamped>>, positions: seq<V3>, ghost objects: set<Stamped>)
      returns (impulses: seq<Impulse>)
      requires |positions| == |contacts| && Targets(contacts) <= objects && InStep(objects)
      modifies this, Targets(contacts)`stamp
      ensures history == old(history) + [contacts] && InStep(objects)
      ensures var taken := Taken(old(history), contacts);
        AreHits(contacts, taken) && impulses == Impulses(contacts, positions, taken)
      ensures var taken := Taken(old(history), contacts);
        && |impulses| == |taken|
        && forall k :: 0 <= k < |taken| ==> impulses[k] == Impulse(contacts[taken[k]].target, positions[taken[k]])
    {
      hide After;
      var stamp := GetUniqueStamp();
      impulses := [];
      ghost var before := StampsIn(Targets(contacts));
      for i := 0 to |contacts|
        invariant uniqueStamp == stamp && history == old(history)
        invariant forall x :: x in objects && x !in Targets(contacts) ==> x.stamp == old(x.stamp)
        invariant var w := WalkOver(contacts[..i], before, stamp);
          && AreHits(contacts, w.taken)
          && impulses == Impulses(contacts, positions, w.taken)
          && StampsIn(Targets(contacts)) == w.stamps
      {
        assert contacts[..i + 1][..i] == contacts[..i];
        if contacts[i].Hit? {
          var rigidBody := contacts[i].target;
          assert contacts[i] in contacts && rigidBody in Targets(contacts);
          if rigidBody.stamp != stamp {
            rigidBody.stamp := stamp;
            impulses := impulses + [Impulse(rigidBody, positions[i])];
          }
        }
      }
      assert contacts[..|contacts|] == contacts;
      Record(contacts, before, objects);
    }
  }
}
