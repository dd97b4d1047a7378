/**
 * Lua's `require` (code/morgue/loadlib.cc), a depth-first search that colours module names in the
 * table _LOADED: absent or false (not loaded), the sentinel (being loaded), any other value (loaded).
 *
 * `Require` is the specification: one run of require on values. `LuaState.LlRequire` below is the
 * table-mutating procedure, proved equal to it. The theorems about runs are stated on `Require`.
 */
module LuaRequire {

  type Name = string

  datatype Value = Nil | False | True | Sentinel | Object(id: int)

  /** lua_toboolean */
  predicate IsTrue(v: Value) {
    v != Nil && v != False
  }

  datatype Outcome = Return(v: Value) | Raise

  /** What running a module does: it requires other modules in turn, then returns or raises. */
  datatype Body = Body(needs: seq<Name>, outcome: Outcome)

  datatype Answer = Function(body: Body) | Message(text: string) | Other | LoaderRaised

  type Loader = Name -> Answer

  datatype Loaders = NotATable | Table(loaders: seq<Loader>)

  datatype LoadError = NoLoadersTable | NotFound(messages: string) | LoaderFailed

  datatype Found = Module(body: Body) | Missing(why: LoadError)

  /** The first loader that answers with a function wins; the texts of the earlier ones pile up in `acc`. */
  function Search(loaders: seq<Loader>, name: Name, acc: string): Found {
    if loaders == [] then Missing(NotFound(acc))
    else
      match loaders[0](name)
      case Function(body) => Module(body)
      case Message(text) => Search(loaders[1..], name, acc + text)
      case Other => Search(loaders[1..], name, acc)
      case LoaderRaised => Missing(LoaderFailed)
  }

  /** The loader has neither found the module nor raised an error. */
  predicate Passes(loader: Loader, name: Name) {
    loader(name).Message? || loader(name).Other?
  }

  function TextOf(answer: Answer): string {
    if answer.Message? then answer.text else ""
  }

  /** All messages, the first one first. */
  function Texts(answers: seq<Answer>): string {
    if answers == [] then "" else Texts(answers[..|answers| - 1]) + TextOf(answers[|answers| - 1])
  }

  lemma {:induction false} TextsOfFirst(answers: seq<Answer>)
    requires answers != []
    ensures Texts(answers) == TextOf(answers[0]) + Texts(answers[1..])
  {
    hide TextOf;
    var last := |answers| - 1;
    if last == 0 {
      assert answers[..0] == [] && answers[1..] == [];
    } else {
      TextsOfFirst(answers[..last]);
      assert answers[..last][1..] == answers[1..][..last - 1];
    }
  }

  function Answers(loaders: seq<Loader>, name: Name): (answers: seq<Answer>)
    ensures |answers| == |loaders| && forall i :: 0 <= i < |loaders| ==> answers[i] == loaders[i](name)
  {
    seq(|loaders|, i requires 0 <= i < |loaders| => loaders[i](name))
  }

  lemma {:induction false} SearchPasses(loaders: seq<Loader>, name: Name, acc: string)
    requires forall i :: 0 <= i < |loaders| ==> Passes(loaders[i], name)
    ensures Search(loaders, name, acc) == Missing(NotFound(acc + Texts(Answers(loaders, name))))
  {
    hide Texts, TextOf;
    assert acc + "" == acc;
    if loaders == [] {
      NoTexts();
    } else {
      var (text, rest) := (TextOf(loaders[0](name)), loaders[1..]);
      TextsOfFirst(Answers(loaders, name));
      assert Answers(loaders, name)[1..] == Answers(rest, name);
      SearchPasses(rest, name, acc + text);
      assert acc + text + Texts(Answers(rest, name)) == acc + (text + Texts(Answers(rest, name)));
      SearchNext(loaders, name, acc);
    }
  }

  lemma NoTexts()
    ensures Texts([]) == ""
  {
  }

  lemma SearchNext(loaders: seq<Loader>, name: Name, acc: string)
    requires loaders != [] && Passes(loaders[0], name)
    ensures Search(loaders, name, acc) == Search(loaders[1..], name, acc + TextOf(loaders[0](name)))
  {
    assert acc + "" == acc;
  }

  lemma {:induction false} SearchStops(loaders: seq<Loader>, name: Name, acc: string, k: nat)
    requires k < |loaders| && !Passes(loaders[k], name) && forall i :: 0 <= i < k ==> Passes(loaders[i], name)
    ensures Search(loaders, name, acc)
         == match loaders[k](name) case Function(body) => Module(body) case _ => Missing(LoaderFailed)
  {
    if k > 0 {
      assert Passes(loaders[0], name);
      SearchNext(loaders, name, acc);
      SearchStops(loaders[1..], name, acc + TextOf(loaders[0](name)), k - 1);
    }
  }

  function Find(pk: Loaders, name: Name): Found {
    if pk.NotATable? then Missing(NoLoadersTable) else Search(pk.loaders, name, "")
  }

  /** The first loader that does not pass decides; if all pass, the error has their messages in order. */
  lemma FindTells(loaders: seq<Loader>, name: Name, k: nat)
    requires k <= |loaders| && forall i :: 0 <= i < k ==> Passes(loaders[i], name)
    requires k < |loaders| ==> !Passes(loaders[k], name)
    ensures Find(Table(loaders), name) ==
      if k == |loaders| then Missing(NotFound(Texts(Answers(loaders, name))))
      else if loaders[k](name).Function? then Module(loaders[k](name).body)
      else Missing(LoaderFailed)
    ensures Find(NotATable, name) == Missing(NoLoadersTable)
  {
    if k == |loaders| {
      SearchPasses(loaders, name, "");
      var texts := Texts(Answers(loaders, name));
      assert "" + texts == texts;
    } else {
      SearchStops(loaders, name, "", k);
    }
  }

  type LoadedTable = map<Name, Value>

  function Get(loaded: LoadedTable, name: Name): Value {
    if name in loaded then loaded[name] else Nil
  }

  predicate Pending(loaded: LoadedTable, name: Name) {
    !IsTrue(Get(loaded, name))
  }

  predicate Ready(loaded: LoadedTable, name: Name) {
    IsTrue(Get(loaded, name)) && Get(loaded, name) != Sentinel
  }

  function Sentinels(loaded: LoadedTable): set<Name> {
    set n | n in loaded && loaded[n] == Sentinel
  }

  datatype Error = Loop(name: Name) | Unloadable(name: Name, why: LoadError) | Raised(name: Name)

  datatype Status = Ok(v: Value) | Failed(error: Error)

  /**
   * One run: how it ended, the table it leaves, the bodies it entered and the bodies it finished (both
   * in order), and the modules whose bodies are still on the call stack when an error stopped it.
   */
  datatype Run = Run(status: Status, loaded: LoadedTable, begun: seq<Name>, ended: seq<Name>, active: seq<Name>)

  /** The value a finished body leaves in its slot: nil and an untouched sentinel both become true. */
  function Settled(v: Value): Value {
    if v == Nil || v == Sentinel then True else v
  }

  /** The module set is finite: every name some loader can find lies in `names`. */
  ghost predicate FiniteModules(pk: Loaders, names: set<Name>) {
    forall n :: Find(pk, n).Module? ==> n in names
  }

  /** One call of require; a recursive call either has one sentinel more or a shorter list of needs. */
  ghost function Require(pk: Loaders, names: set<Name>, loaded: LoadedTable, name: Name): (r: Run)
    requires FiniteModules(pk, names)
    ensures r.status.Ok? ==> Sentinels(r.loaded) == Sentinels(loaded) && r.active == []
    decreases names - Sentinels(loaded), 0
  {
    var v := Get(loaded, name);
    if v == Sentinel then Run(Failed(Loop(name)), loaded, [], [], [])
    else if IsTrue(v) then Run(Ok(v), loaded, [], [], [])
    else
      match Find(pk, name)
      case Missing(why) => Run(Failed(Unloadable(name, why)), loaded, [], [], [])
      case Module(body) =>
        var marked := loaded[name := Sentinel];
        assert name in (names - Sentinels(loaded)) - (names - Sentinels(marked));
        assert names - Sentinels(marked) < names - Sentinels(loaded);
        var inner := RequireAll(pk, names, marked, body.needs);
        assert Sentinels(marked) == Sentinels(loaded) + {name};
        Entered(name, body.outcome, inner)
  }

  /** The run of a body that was entered, from the run of its nested calls. */
  function Entered(name: Name, outcome: Outcome, inner: Run): Run {
    if inner.status.Failed? then
      inner.(begun := [name] + inner.begun, active := [name] + inner.active)
    else if outcome.Raise? then
      Run(Failed(Raised(name)), inner.loaded, [name] + inner.begun, inner.ended, [name])
    else
      var result := Settled(outcome.v);
      Run(Ok(result), inner.loaded[name := result], [name] + inner.begun, inner.ended + [name], [])
  }

  /** The nested calls made by one body, left to right, stopping at the first error. */
  ghost function RequireAll(pk: Loaders, names: set<Name>, loaded: LoadedTable, needs: seq<Name>): (r: Run)
    requires FiniteModules(pk, names)
    ensures r.status.Ok? ==> Sentinels(r.loaded) == Sentinels(loaded) && r.active == []
    decreases names - Sentinels(loaded), 1 + |needs|
  {
    if needs == [] then Run(Ok(Nil), loaded, [], [], [])
    else
      var first := Require(pk, names, loaded, needs[0]);
      if first.status.Failed? then first
      else
        Then(first, RequireAll(pk, names, first.loaded, needs[1..]))
  }

  /** A run that goes on where a successful one ended. */
  function Then(first: Run, rest: Run): Run {
    rest.(begun := first.begun + rest.begun, ended := first.ended + rest.ended)
  }

  /** The needs of a body are required one after the other: the later ones find what the earlier ones left. */
  lemma {:induction false} NeedsInOrder(pk: Loaders, names: set<Name>, loaded: LoadedTable, needs: seq<Name>, more: seq<Name>)
    requires FiniteModules(pk, names)
    ensures var first := RequireAll(pk, names, loaded, needs);
      RequireAll(pk, names, loaded, needs + more) ==
        if first.status.Failed? then first else Then(first, RequireAll(pk, names, first.loaded, more))
    decreases |needs|
  {
    hide FiniteModules, Sentinels, Require, RequireAll, Then;
    if needs == [] {
      assert needs + more == more;
      NoNeeds(pk, names, loaded, RequireAll(pk, names, loaded, more));
    } else {
      FirstNeed(pk, names, loaded, needs);
      FirstNeed(pk, names, loaded, needs + more);
      assert (needs + more)[1..] == needs[1..] + more;
      var next := Require(pk, names, loaded, needs[0]);
      if next.status.Ok? {
        NeedsInOrder(pk, names, next.loaded, needs[1..], more);
        var rest := RequireAll(pk, names, next.loaded, needs[1..]);
        ThenThen(next, rest, RequireAll(pk, names, rest.loaded, more));
      }
    }
  }

  lemma NoNeeds(pk: Loaders, names: set<Name>, loaded: LoadedTable, r: Run)
    requires FiniteModules(pk, names)
    ensures RequireAll(pk, names, loaded, []) == Run(Ok(Nil), loaded, [], [], [])
    ensures Then(Run(Ok(Nil), loaded, [], [], []), r) == r
  {
    hide FiniteModules;
  }

  lemma FirstNeed(pk: Loaders, names: set<Name>, loaded: LoadedTable, needs: seq<Name>)
    requires FiniteModules(pk, names) && needs != []
    ensures var first := Require(pk, names, loaded, needs[0]);
      RequireAll(pk, names, loaded, needs) ==
        if first.status.Failed? then first else Then(first, RequireAll(pk, names, first.loaded, needs[1..]))
  {
    hide FiniteModules, Require;
  }

  lemma ThenThen(a: Run, b: Run, c: Run)
    ensures Then(a, Then(b, c)) == Then(Then(a, b), c) && Then(a, b).loaded == b.loaded && Then(a, b).status == b.status
  {
  }

  /** What entering a module makes of the run of its body. */
  lemma RequireEnters(pk: Loaders, names: set<Name>, loaded: LoadedTable, name: Name, body: Body)
    requires FiniteModules(pk, names)
    requires Pending(loaded, name) && Find(pk, name) == Module(body)
    ensures var marked := loaded[name := Sentinel];
      && names - Sentinels(marked) < names - Sentinels(loaded)
      && Require(pk, names, loaded, name) == Entered(name, body.outcome, RequireAll(pk, names, marked, body.needs))
  {
    var marked := loaded[name := Sentinel];
    assert name in (names - Sentinels(loaded)) - (names - Sentinels(marked));
  }

  // ----- the table after a run -----

  /** What the table holds after a finished or failed run, in terms of the three lists alone. */
  ghost predicate TableAfter(pk: Loaders, loaded: LoadedTable, r: Run) {
    && (forall n :: n in r.ended ==>
                      Find(pk, n).Module? && Find(pk, n).body.outcome.Return? && Pending(loaded, n))
    && (forall n :: n in r.active ==> Pending(loaded, n))
    && (forall n :: Get(r.loaded, n) ==
                    if n in r.active then Sentinel
                    else if n in r.ended then Settled(Find(pk, n).body.outcome.v)
                    else Get(loaded, n))
  }

  lemma {:induction false} RequireTable(pk: Loaders, names: set<Name>, loaded: LoadedTable, name: Name)
    requires FiniteModules(pk, names)
    ensures TableAfter(pk, loaded, Require(pk, names, loaded, name))
    decreases names - Sentinels(loaded), 0
  {
    hide Find, Search, TableAfter;
    var found := Find(pk, name);
    if Pending(loaded, name) && found.Module? {
      var marked := loaded[name := Sentinel];
      RequireEnters(pk, names, loaded, name, found.body);
      RequireAllTable(pk, names, marked, found.body.needs);
      EnteredTable(pk, loaded, name, RequireAll(pk, names, marked, found.body.needs));
    } else {
      NothingRun(pk, loaded, Require(pk, names, loaded, name).status);
    }
  }

  lemma NothingRun(pk: Loaders, loaded: LoadedTable, status: Status)
    ensures TableAfter(pk, loaded, Run(status, loaded, [], [], []))
  {
  }

  lemma EnteredTable(pk: Loaders, loaded: LoadedTable, name: Name, inner: Run)
    requires Pending(loaded, name) && Find(pk, name).Module?
    requires TableAfter(pk, loaded[name := Sentinel], inner)
    requires inner.status.Ok? ==> inner.active == []
    ensures TableAfter(pk, loaded, Entered(name, Find(pk, name).body.outcome, inner))
  {
    hide Find, Search;
  }

  lemma {:induction false} RequireAllTable(pk: Loaders, names: set<Name>, loaded: LoadedTable, needs: seq<Name>)
    requires FiniteModules(pk, names)
    ensures TableAfter(pk, loaded, RequireAll(pk, names, loaded, needs))
    decreases names - Sentinels(loaded), 1 + |needs|
  {
    if needs != [] {
      RequireTable(pk, names, loaded, needs[0]);
      var first := Require(pk, names, loaded, needs[0]);
      if first.status.Ok? {
        RequireAllTable(pk, names, first.loaded, needs[1..]);
      }
    }
  }

  /** A failed run leaves the sentinel on exactly the modules still on the call stack. */
  lemma FailureLeavesCallStack(pk: Loaders, names: set<Name>, loaded: LoadedTable, name: Name)
    requires FiniteModules(pk, names)
    ensures var r := Require(pk, names, loaded, name);
      && Sentinels(r.loaded) == Sentinels(loaded) + set n | n in r.active
      && (r.status.Failed? ==>
        forall n :: n in r.active ==>
          Require(pk, names, r.loaded, n) == Run(Failed(Loop(n)), r.loaded, [], [], []))
  {
    RequireTable(pk, names, loaded, name);
    var r := Require(pk, names, loaded, name);
    forall n ensures n in Sentinels(r.loaded) <==> n in Sentinels(loaded) + set m | m in r.active {
      assert n in Sentinels(r.loaded) <==> Get(r.loaded, n) == Sentinel;
    }
  }

  /** Every body entered is finished or still active, and the first one entered is that of the name. */
  lemma {:induction false} BegunIsEndedPlusActive(pk: Loaders, names: set<Name>, loaded: LoadedTable, name: Name)
    requires FiniteModules(pk, names)
    ensures var r := Require(pk, names, loaded, name);
      && multiset(r.begun) == multiset(r.ended) + multiset(r.active)
      && (r.begun != [] ==> r.begun[0] == name)
    decreases names - Sentinels(loaded), 0
  {
    hide Find, Search;
    var found := Find(pk, name);
    if Pending(loaded, name) && found.Module? {
      var marked := loaded[name := Sentinel];
      RequireEnters(pk, names, loaded, name, found.body);
      BegunIsEndedPlusActiveAll(pk, names, marked, found.body.needs);
      EnteredBalance(name, found.body.outcome, RequireAll(pk, names, marked, found.body.needs));
    }
  }

  lemma EnteredBalance(name: Name, outcome: Outcome, inner: Run)
    requires multiset(inner.begun) == multiset(inner.ended) + multiset(inner.active)
    requires inner.status.Ok? ==> inner.active == []
    ensures var r := Entered(name, outcome, inner); multiset(r.begun) == multiset(r.ended) + multiset(r.active)
  {
    assert multiset([name] + inner.begun) == multiset{name} + multiset(inner.begun);
    assert multiset([name] + inner.active) == multiset{name} + multiset(inner.active);
    assert multiset(inner.ended + [name]) == multiset(inner.ended) + multiset{name};
  }

  lemma {:induction false} BegunIsEndedPlusActiveAll(pk: Loaders, names: set<Name>, loaded: LoadedTable, needs: seq<Name>)
    requires FiniteModules(pk, names)
    ensures var r := RequireAll(pk, names, loaded, needs); multiset(r.begun) == multiset(r.ended) + multiset(r.active)
    decreases names - Sentinels(loaded), 1 + |needs|
  {
    if needs != [] {
      BegunIsEndedPlusActive(pk, names, loaded, needs[0]);
      var first := Require(pk, names, loaded, needs[0]);
      if first.status.Ok? {
        BegunIsEndedPlusActiveAll(pk, names, first.loaded, needs[1..]);
        var rest := RequireAll(pk, names, first.loaded, needs[1..]);
        assert multiset(first.begun + rest.begun) == multiset(first.begun) + multiset(rest.begun);
        assert multiset(first.ended + rest.ended) == multiset(first.ended) + multiset(rest.ended);
      }
    }
  }

  // ----- order and uniqueness of finished bodies -----

  /** Everything a finished body needed was loaded before the run or finished earlier in it. */
  ghost predicate Topological(pk: Loaders, loaded: LoadedTable, ended: seq<Name>) {
    forall i :: 0 <= i < |ended| ==> NeedsMet(pk, loaded, ended[..i], ended[i])
  }

  ghost predicate NeedsMet(pk: Loaders, loaded: LoadedTable, done: seq<Name>, n: Name) {
    && Find(pk, n).Module?
    && forall need :: need in Find(pk, n).body.needs ==> Ready(loaded, need) || need in done
  }

  /** Only a body that returns false is ever finished twice. */
  ghost predicate OnceUnlessFalse(pk: Loaders, ended: seq<Name>) {
    forall i, j :: 0 <= i < j < |ended| && ended[i] == ended[j] ==>
      Find(pk, ended[i]).Module? && Find(pk, ended[i]).body.outcome == Return(False)
  }

  lemma TopologicalConcat(pk: Loaders, loaded: LoadedTable, middle: LoadedTable, first: seq<Name>, rest: seq<Name>)
    requires Topological(pk, loaded, first) && Topological(pk, middle, rest)
    requires forall n :: Ready(middle, n) ==> Ready(loaded, n) || n in first
    ensures Topological(pk, loaded, first + rest)
  {
    var both := first + rest;
    forall i | 0 <= i < |both| ensures NeedsMet(pk, loaded, both[..i], both[i]) {
      if i < |first| {
        assert both[..i] == first[..i];
      } else {
        var k := i - |first|;
        assert NeedsMet(pk, middle, rest[..k], rest[k]);
        assert both[..i] == first + rest[..k];
      }
    }
  }

  lemma {:induction false} FinishOrder(pk: Loaders, names: set<Name>, loaded: LoadedTable, name: Name)
    requires FiniteModules(pk, names)
    ensures var r := Require(pk, names, loaded, name);
      && Topological(pk, loaded, r.ended)
      && (r.status.Ok? ==> Ready(loaded, name) || name in r.ended)
    decreases names - Sentinels(loaded), 0
  {
    hide Find, Search, Topological;
    var found := Find(pk, name);
    TopologicalNone(pk, loaded);
    if Pending(loaded, name) && found.Module? {
      var marked := loaded[name := Sentinel];
      RequireEnters(pk, names, loaded, name, found.body);
      FinishOrderAll(pk, names, marked, found.body.needs);
      var inner := RequireAll(pk, names, marked, found.body.needs);
      TopologicalNone(pk, loaded);
      TopologicalConcat(pk, loaded, marked, [], inner.ended);
      assert [] + inner.ended == inner.ended;
      if inner.status.Ok? {
        TopologicalAppend(pk, loaded, inner.ended, name);
      }
    }
  }

  lemma TopologicalNone(pk: Loaders, loaded: LoadedTable)
    ensures Topological(pk, loaded, [])
  {
  }

  lemma TopologicalAppend(pk: Loaders, loaded: LoadedTable, done: seq<Name>, n: Name)
    requires Topological(pk, loaded, done) && NeedsMet(pk, loaded, done, n)
    ensures Topological(pk, loaded, done + [n])
  {
    var ended := done + [n];
    forall i | 0 <= i < |ended| ensures NeedsMet(pk, loaded, ended[..i], ended[i]) {
      assert ended[..i] == done[..i];
    }
  }

  lemma {:induction false} FinishOrderAll(pk: Loaders, names: set<Name>, loaded: LoadedTable, needs: seq<Name>)
    requires FiniteModules(pk, names)
    ensures var r := RequireAll(pk, names, loaded, needs);
      && Topological(pk, loaded, r.ended)
      && (r.status.Ok? ==> forall need :: need in needs ==> Ready(loaded, need) || need in r.ended)
    decreases names - Sentinels(loaded), 1 + |needs|
  {
    if needs != [] {
      FinishOrder(pk, names, loaded, needs[0]);
      var first := Require(pk, names, loaded, needs[0]);
      if first.status.Ok? {
        FinishOrderAll(pk, names, first.loaded, needs[1..]);
        RequireTable(pk, names, loaded, needs[0]);
        var rest := RequireAll(pk, names, first.loaded, needs[1..]);
        TopologicalConcat(pk, loaded, first.loaded, first.ended, rest.ended);
      }
    }
  }

  lemma {:induction false} FinishedOnce(pk: Loaders, names: set<Name>, loaded: LoadedTable, name: Name)
    requires FiniteModules(pk, names)
    ensures OnceUnlessFalse(pk, Require(pk, names, loaded, name).ended)
    decreases names - Sentinels(loaded), 0
  {
    var found := Find(pk, name);
    if Pending(loaded, name) && found.Module? {
      var marked := loaded[name := Sentinel];
      RequireEnters(pk, names, loaded, name, found.body);
      FinishedOnceAll(pk, names, marked, found.body.needs);
      RequireAllTable(pk, names, marked, found.body.needs);
      assert name !in RequireAll(pk, names, marked, found.body.needs).ended;
    }
  }

  lemma {:induction false} FinishedOnceAll(pk: Loaders, names: set<Name>, loaded: LoadedTable, needs: seq<Name>)
    requires FiniteModules(pk, names)
    ensures OnceUnlessFalse(pk, RequireAll(pk, names, loaded, needs).ended)
    decreases names - Sentinels(loaded), 1 + |needs|
  {
    if needs != [] {
      FinishedOnce(pk, names, loaded, needs[0]);
      var first := Require(pk, names, loaded, needs[0]);
      if first.status.Ok? {
        FinishedOnceAll(pk, names, first.loaded, needs[1..]);
        var rest := RequireAll(pk, names, first.loaded, needs[1..]);
        forall n | n in first.ended && n in rest.ended
          ensures Find(pk, n).Module? && Find(pk, n).body.outcome == Return(False)
        {
          RequireTable(pk, names, loaded, needs[0]);
          RequireAllTable(pk, names, first.loaded, needs[1..]);
        }
      }
    }
  }

  // ----- success exactly when nothing defective is reachable -----

  /** A chain of pending modules, each needing the next. */
  ghost predicate IsPath(pk: Loaders, loaded: LoadedTable, path: seq<Name>) {
    && path != []
    && forall i :: 0 <= i < |path| - 1 ==> Needs(pk, loaded, path[i], path[i + 1])
  }

  ghost predicate Needs(pk: Loaders, loaded: LoadedTable, a: Name, b: Name) {
    Pending(loaded, a) && Find(pk, a).Module? && b in Find(pk, a).body.needs
  }

  /** The chain ends in a module being loaded already, in one that is missing or raises, or closes a cycle. */
  ghost predicate Defective(pk: Loaders, loaded: LoadedTable, path: seq<Name>) {
    && IsPath(pk, loaded, path)
    && var n := path[|path| - 1];
       || Get(loaded, n) == Sentinel
       || (Pending(loaded, n) && Find(pk, n).Missing?)
       || (Pending(loaded, n) && Find(pk, n).Module? && Find(pk, n).body.outcome.Raise?)
       || n in path[..|path| - 1]
  }

  /** The chain an error shows: the active call stack, ended by the module that could not be entered. */
  function ErrorChain(r: Run): seq<Name>
    requires r.status.Failed?
  {
    match r.status.error
    case Loop(n) => r.active + [n]
    case Unloadable(n, _) => r.active + [n]
    case Raised(_) => r.active
  }

  /** A chain that is defective while `name` is being loaded, put behind `name`. */
  lemma DefectiveNested(pk: Loaders, loaded: LoadedTable, name: Name, tail: seq<Name>)
    requires Pending(loaded, name) && Find(pk, name).Module?
    requires Defective(pk, loaded[name := Sentinel], tail) && tail[0] in Find(pk, name).body.needs
    ensures Defective(pk, loaded, [name] + tail)
  {
    var path := [name] + tail;
    forall i | 0 <= i < |path| - 1 ensures Needs(pk, loaded, path[i], path[i + 1]) {
      if i > 0 {
        assert Needs(pk, loaded[name := Sentinel], tail[i - 1], tail[i]);
      }
    }
    assert path[..|path| - 1] == [name] + tail[..|tail| - 1];
  }

  lemma {:induction false} FailureIsDefective(pk: Loaders, names: set<Name>, loaded: LoadedTable, name: Name)
    requires FiniteModules(pk, names)
    ensures var r := Require(pk, names, loaded, name);
      r.status.Failed? ==> var path := ErrorChain(r); Defective(pk, loaded, path) && path[0] == name
    decreases names - Sentinels(loaded), 0
  {
    hide FiniteModules, Sentinels;
    var found := Find(pk, name);
    if Pending(loaded, name) && found.Module? {
      var marked := loaded[name := Sentinel];
      RequireEnters(pk, names, loaded, name, found.body);
      FailureIsDefectiveAll(pk, names, marked, found.body.needs);
      var inner := RequireAll(pk, names, marked, found.body.needs);
      if inner.status.Failed? {
        DefectiveNested(pk, loaded, name, ErrorChain(inner));
        assert ErrorChain(Require(pk, names, loaded, name)) == [name] + ErrorChain(inner);
      }
    }
  }

  /** A chain that is defective after a successful run was defective before it. */
  lemma DefectiveBefore(pk: Loaders, loaded: LoadedTable, r: Run, path: seq<Name>)
    requires TableAfter(pk, loaded, r) && r.active == []
    requires Defective(pk, r.loaded, path)
    ensures Defective(pk, loaded, path)
  {
    forall i | 0 <= i < |path| - 1 ensures Needs(pk, loaded, path[i], path[i + 1]) {
      assert Needs(pk, r.loaded, path[i], path[i + 1]);
    }
  }

  lemma {:induction false} FailureIsDefectiveAll(pk: Loaders, names: set<Name>, loaded: LoadedTable, needs: seq<Name>)
    requires FiniteModules(pk, names)
    ensures var r := RequireAll(pk, names, loaded, needs);
      r.status.Failed? ==> var path := ErrorChain(r); Defective(pk, loaded, path) && path[0] in needs
    decreases names - Sentinels(loaded), 1 + |needs|
  {
    if needs != [] {
      FailureIsDefective(pk, names, loaded, needs[0]);
      RequireTable(pk, names, loaded, needs[0]);
      var first := Require(pk, names, loaded, needs[0]);
      if first.status.Ok? {
        FailureIsDefectiveAll(pk, names, first.loaded, needs[1..]);
        var rest := RequireAll(pk, names, first.loaded, needs[1..]);
        if rest.status.Failed? {
          DefectiveBefore(pk, loaded, first, ErrorChain(rest));
        }
      }
    }
  }

  /** `n` is loaded, or it can be after everything it needs, in at most `rank` rounds. */
  ghost predicate Loadable(pk: Loaders, loaded: LoadedTable, n: Name, rank: nat)
    decreases rank
  {
    || Ready(loaded, n)
    || (&& Pending(loaded, n) && rank > 0
        && Find(pk, n).Module? && Find(pk, n).body.outcome.Return?
        && forall need :: need in Find(pk, n).body.needs ==> Loadable(pk, loaded, need, rank - 1))
  }

  lemma {:induction false} LoadableMonotone(pk: Loaders, loaded: LoadedTable, n: Name, low: nat, high: nat)
    requires Loadable(pk, loaded, n, low) && low <= high
    ensures Loadable(pk, loaded, n, high)
    decreases low
  {
    if !Ready(loaded, n) {
      forall need | need in Find(pk, n).body.needs ensures Loadable(pk, loaded, need, high - 1) {
        LoadableMonotone(pk, loaded, need, low - 1, high - 1);
      }
    }
  }

  /** Loadability carries back over a run: what the run made ready was loadable within `bound` before it. */
  lemma {:induction false} LoadableBefore(pk: Loaders, before: LoadedTable, after: LoadedTable, bound: nat, n: Name, rank: nat)
    requires forall m :: Ready(after, m) && !Ready(before, m) ==> Loadable(pk, before, m, bound)
    requires forall m :: Pending(after, m) ==> Pending(before, m)
    requires Loadable(pk, after, n, rank)
    ensures Loadable(pk, before, n, rank + bound)
    decreases rank
  {
    if Ready(after, n) {
      if !Ready(before, n) {
        LoadableMonotone(pk, before, n, bound, rank + bound);
      }
    } else {
      forall need | need in Find(pk, n).body.needs ensures Loadable(pk, before, need, rank - 1 + bound) {
        LoadableBefore(pk, before, after, bound, need, rank - 1);
      }
    }
  }

  lemma {:induction false} SuccessIsLoadable(pk: Loaders, names: set<Name>, loaded: LoadedTable, name: Name) returns (rank: nat)
    requires FiniteModules(pk, names)
    requires Require(pk, names, loaded, name).status.Ok?
    ensures Loadable(pk, loaded, name, rank)
    ensures var after := Require(pk, names, loaded, name).loaded;
      && (forall m :: Ready(after, m) && !Ready(loaded, m) ==> Loadable(pk, loaded, m, rank))
      && (forall m :: Pending(after, m) ==> Pending(loaded, m))
    decreases names - Sentinels(loaded), 0
  {
    hide Search;
    rank := 0;
    RequireTable(pk, names, loaded, name);
    if Pending(loaded, name) {
      var body := Find(pk, name).body;
      var marked := loaded[name := Sentinel];
      RequireEnters(pk, names, loaded, name, body);
      var bound := SuccessIsLoadableAll(pk, names, marked, body.needs);
      rank := bound + 1;
      forall need | need in body.needs ensures Loadable(pk, loaded, need, bound) {
        LoadableBefore(pk, loaded, marked, 0, need, bound);
      }
      var after := Require(pk, names, loaded, name).loaded;
      var inner := RequireAll(pk, names, marked, body.needs).loaded;
      forall m | Ready(after, m) && !Ready(loaded, m) ensures Loadable(pk, loaded, m, rank) {
        if m != name {
          assert Ready(inner, m) && !Ready(marked, m);
          LoadableBefore(pk, loaded, marked, 0, m, bound);
          LoadableMonotone(pk, loaded, m, bound, rank);
        }
      }
    }
  }

  lemma {:induction false} SuccessIsLoadableAll(pk: Loaders, names: set<Name>, loaded: LoadedTable, needs: seq<Name>) returns (rank: nat)
    requires FiniteModules(pk, names)
    requires RequireAll(pk, names, loaded, needs).status.Ok?
    ensures forall need :: need in needs ==> Loadable(pk, loaded, need, rank)
    ensures var after := RequireAll(pk, names, loaded, needs).loaded;
      && (forall m :: Ready(after, m) && !Ready(loaded, m) ==> Loadable(pk, loaded, m, rank))
      && (forall m :: Pending(after, m) ==> Pending(loaded, m))
    decreases names - Sentinels(loaded), 1 + |needs|
  {
    rank := 0;
    if needs != [] {
      var bound := SuccessIsLoadable(pk, names, loaded, needs[0]);
      var middle := Require(pk, names, loaded, needs[0]).loaded;
      var restBound := SuccessIsLoadableAll(pk, names, middle, needs[1..]);
      rank := restBound + bound;
      LoadableMonotone(pk, loaded, needs[0], bound, rank);
      forall m | Loadable(pk, middle, m, restBound) ensures Loadable(pk, loaded, m, rank) {
        LoadableBefore(pk, loaded, middle, bound, m, restBound);
      }
      forall m | Loadable(pk, loaded, m, bound) ensures Loadable(pk, loaded, m, rank) {
        LoadableMonotone(pk, loaded, m, bound, rank);
      }
    }
  }

  /** Along a path the rank drops, so a loadable start reaches position `i` with rank at least `i`. */
  lemma {:induction false} RankDropsAlongPath(pk: Loaders, loaded: LoadedTable, path: seq<Name>, rank: nat, i: nat)
    requires IsPath(pk, loaded, path) && i < |path|
    requires Loadable(pk, loaded, path[0], rank)
    ensures i <= rank && Loadable(pk, loaded, path[i], rank - i)
  {
    if i > 0 {
      RankDropsAlongPath(pk, loaded, path, rank, i - 1);
      assert Needs(pk, loaded, path[i - 1], path[i]);
    }
  }

  lemma {:induction false} CycleIsNotLoadable(pk: Loaders, loaded: LoadedTable, cycle: seq<Name>, rank: nat)
    requires IsPath(pk, loaded, cycle) && |cycle| > 1 && cycle[0] == cycle[|cycle| - 1]
    ensures !Loadable(pk, loaded, cycle[0], rank)
    decreases rank
  {
    if Loadable(pk, loaded, cycle[0], rank) {
      RankDropsAlongPath(pk, loaded, cycle, rank, |cycle| - 1);
      CycleIsNotLoadable(pk, loaded, cycle, rank - (|cycle| - 1));
    }
  }

  lemma LoadableIsNotDefective(pk: Loaders, loaded: LoadedTable, path: seq<Name>, rank: nat)
    requires IsPath(pk, loaded, path)
    requires Loadable(pk, loaded, path[0], rank)
    ensures !Defective(pk, loaded, path)
  {
    var last := |path| - 1;
    RankDropsAlongPath(pk, loaded, path, rank, last);
    if path[last] in path[..last] {
      var i :| 0 <= i < last && path[i] == path[last];
      RankDropsAlongPath(pk, loaded, path, rank, i);
      var cycle := path[i..];
      forall k | 0 <= k < |cycle| - 1 ensures Needs(pk, loaded, cycle[k], cycle[k + 1]) {
        assert Needs(pk, loaded, path[i + k], path[i + k + 1]);
      }
      CycleIsNotLoadable(pk, loaded, cycle, rank - i);
    }
  }

  /**
   * The main theorem: require succeeds exactly when no chain of pending modules from `name` runs into a
   * sentinel, a missing module, a body that raises, or itself. It holds for every table, also one with
   * sentinels left by an earlier error, and for bodies that return false and are therefore run again.
   */
  lemma SucceedsIffNoDefectReachable(pk: Loaders, names: set<Name>, loaded: LoadedTable, name: Name)
    requires FiniteModules(pk, names)
    ensures Require(pk, names, loaded, name).status.Ok?
        <==> forall path :: path != [] && path[0] == name ==> !Defective(pk, loaded, path)
  {
    if Require(pk, names, loaded, name).status.Ok? {
      var rank := SuccessIsLoadable(pk, names, loaded, name);
      forall path: seq<Name> | path != [] && path[0] == name ensures !Defective(pk, loaded, path) {
        if IsPath(pk, loaded, path) {
          LoadableIsNotDefective(pk, loaded, path, rank);
        }
      }
    } else {
      FailureIsDefective(pk, names, loaded, name);
    }
  }

  // ----- the bodies run are the pending modules reachable from the name -----

  lemma {:induction false} EndedIsReachable(pk: Loaders, names: set<Name>, loaded: LoadedTable, name: Name, n: Name)
    returns (path: seq<Name>)
    requires FiniteModules(pk, names)
    requires n in Require(pk, names, loaded, name).ended
    ensures IsPath(pk, loaded, path) && path[0] == name && path[|path| - 1] == n && Pending(loaded, n)
    decreases names - Sentinels(loaded), 0
  {
    RequireTable(pk, names, loaded, name);
    if n == name {
      path := [n];
    } else {
      var body := Find(pk, name).body;
      var marked := loaded[name := Sentinel];
      RequireEnters(pk, names, loaded, name, body);
      var tail := EndedIsReachableAll(pk, names, marked, body.needs, n);
      path := [name] + tail;
      forall i | 0 <= i < |path| - 1 ensures Needs(pk, loaded, path[i], path[i + 1]) {
        if i > 0 {
          assert Needs(pk, marked, tail[i - 1], tail[i]);
        }
      }
    }
  }

  lemma {:induction false} EndedIsReachableAll(pk: Loaders, names: set<Name>, loaded: LoadedTable, needs: seq<Name>, n: Name)
    returns (path: seq<Name>)
    requires FiniteModules(pk, names)
    requires n in RequireAll(pk, names, loaded, needs).ended
    ensures IsPath(pk, loaded, path) && path[0] in needs && path[|path| - 1] == n
    decreases names - Sentinels(loaded), 1 + |needs|
  {
    var first := Require(pk, names, loaded, needs[0]);
    if n in first.ended {
      path := EndedIsReachable(pk, names, loaded, needs[0], n);
    } else {
      RequireTable(pk, names, loaded, needs[0]);
      path := EndedIsReachableAll(pk, names, first.loaded, needs[1..], n);
      forall i | 0 <= i < |path| - 1 ensures Needs(pk, loaded, path[i], path[i + 1]) {
        assert Needs(pk, first.loaded, path[i], path[i + 1]);
      }
    }
  }

  lemma {:induction false} ReachableIsEnded(pk: Loaders, loaded: LoadedTable, ended: seq<Name>, path: seq<Name>, i: nat)
    requires Topological(pk, loaded, ended)
    requires IsPath(pk, loaded, path) && i < |path| && (Ready(loaded, path[0]) || path[0] in ended)
    ensures Ready(loaded, path[i]) || path[i] in ended
  {
    if i > 0 {
      assert Needs(pk, loaded, path[i - 1], path[i]);
      ReachableIsEnded(pk, loaded, ended, path, i - 1);
      var k :| 0 <= k < |ended| && ended[k] == path[i - 1];
      assert NeedsMet(pk, loaded, ended[..k], ended[k]);
    }
  }

  /**
   * A successful run: the table it leaves, and the bodies it ran. They are exactly the pending modules
   * reachable from `name`, in topological order, each once unless it returns false.
   */
  lemma SuccessfulRun(pk: Loaders, names: set<Name>, loaded: LoadedTable, name: Name)
    requires FiniteModules(pk, names)
    requires Require(pk, names, loaded, name).status.Ok?
    ensures var r := Require(pk, names, loaded, name);
      && r.status.v == Get(r.loaded, name)
      && Sentinels(r.loaded) == Sentinels(loaded)
      && multiset(r.begun) == multiset(r.ended)
      && Topological(pk, loaded, r.ended)
      && OnceUnlessFalse(pk, r.ended)
      && (forall n :: n in r.ended <==>
           Pending(loaded, n) && exists path :: IsPath(pk, loaded, path) && path[0] == name && path[|path| - 1] == n)
  {
    var r := Require(pk, names, loaded, name);
    RequireTable(pk, names, loaded, name);
    BegunIsEndedPlusActive(pk, names, loaded, name);
    FinishOrder(pk, names, loaded, name);
    FinishedOnce(pk, names, loaded, name);
    forall n | n in r.ended
      ensures Pending(loaded, n) && exists path :: IsPath(pk, loaded, path) && path[0] == name && path[|path| - 1] == n
    {
      var path := EndedIsReachable(pk, names, loaded, name, n);
    }
    forall path | IsPath(pk, loaded, path) && path[0] == name && Pending(loaded, path[|path| - 1])
      ensures path[|path| - 1] in r.ended
    {
      ReachableIsEnded(pk, loaded, r.ended, path, |path| - 1);
    }
  }

  /** A second require of a module that did not return false finds it loaded: same value, nothing run. */
  lemma SecondRequireRunsNothing(pk: Loaders, names: set<Name>, loaded: LoadedTable, name: Name)
    requires FiniteModules(pk, names)
    requires Require(pk, names, loaded, name).status.Ok?
    ensures var r := Require(pk, names, loaded, name);
      r.status.v != False <==> Require(pk, names, r.loaded, name) == Run(r.status, r.loaded, [], [], [])
  {
    RequireTable(pk, names, loaded, name);
    FinishOrder(pk, names, loaded, name);
  }

  /**
   * The slot of a finished module, and what require yields: the module's own value, true if that is nil or
   * the slot was left alone; a module loaded before keeps its value and yields it.
   */
  lemma ModulesYieldTheirValues(pk: Loaders, names: set<Name>, loaded: LoadedTable, name: Name)
    requires FiniteModules(pk, names)
    requires Require(pk, names, loaded, name).status.Ok?
    ensures var r := Require(pk, names, loaded, name);
      && r.status == Ok(Get(r.loaded, name))
      && (Pending(loaded, name) ==> name in r.ended)
      && (forall n :: n in r.ended ==>
           Find(pk, n).Module? && Find(pk, n).body.outcome.Return?
           && var v := Find(pk, n).body.outcome.v;
              Get(r.loaded, n) == if v == Nil || v == Sentinel then True else v)
      && (forall n :: n !in r.ended ==> Get(r.loaded, n) == Get(loaded, n))
  {
    RequireTable(pk, names, loaded, name);
    FinishOrder(pk, names, loaded, name);
  }

  /** What an error says is so: the slot holds the sentinel, no loader found the module, or its body raised. */
  lemma {:induction false} ErrorsAreTrue(pk: Loaders, names: set<Name>, loaded: LoadedTable, name: Name)
    requires FiniteModules(pk, names)
    requires Require(pk, names, loaded, name).status.Failed?
    ensures ErrorIsTrue(pk, Require(pk, names, loaded, name))
    decreases names - Sentinels(loaded), 0
  {
    hide FiniteModules, Sentinels;
    var found := Find(pk, name);
    if Pending(loaded, name) && found.Module? {
      var marked := loaded[name := Sentinel];
      RequireEnters(pk, names, loaded, name, found.body);
      if RequireAll(pk, names, marked, found.body.needs).status.Failed? {
        ErrorsAreTrueAll(pk, names, marked, found.body.needs);
      }
    }
  }

  lemma {:induction false} ErrorsAreTrueAll(pk: Loaders, names: set<Name>, loaded: LoadedTable, needs: seq<Name>)
    requires FiniteModules(pk, names)
    requires RequireAll(pk, names, loaded, needs).status.Failed?
    ensures ErrorIsTrue(pk, RequireAll(pk, names, loaded, needs))
    decreases names - Sentinels(loaded), 1 + |needs|
  {
    hide FiniteModules, Sentinels;
    var first := Require(pk, names, loaded, needs[0]);
    if first.status.Failed? {
      ErrorsAreTrue(pk, names, loaded, needs[0]);
    } else {
      ErrorsAreTrueAll(pk, names, first.loaded, needs[1..]);
    }
  }

  predicate ErrorIsTrue(pk: Loaders, r: Run)
    requires r.status.Failed?
  {
    match r.status.error
    case Loop(n) => Get(r.loaded, n) == Sentinel
    case Unloadable(n, why) => Pending(r.loaded, n) && Find(pk, n) == Missing(why)
    case Raised(n) => Find(pk, n).Module? && Find(pk, n).body.outcome.Raise? && r.active != [] && r.active[|r.active| - 1] == n
  }

  // ----- the procedure -----

  lemma SentinelStays(pk: Loaders, names: set<Name>, loaded: LoadedTable, needs: seq<Name>, name: Name)
    requires FiniteModules(pk, names) && Get(loaded, name) == Sentinel
    ensures var r := RequireAll(pk, names, loaded, needs); r.status.Ok? ==> Get(r.loaded, name) == Sentinel
  {
    RequireAllTable(pk, names, loaded, needs);
  }

  /** The interpreter state `require` works on; the three logs record the bodies entered, finished and active. */
  class LuaState {
    const package: Loaders
    var loaded: LoadedTable
    ghost var begun: seq<Name>
    ghost var ended: seq<Name>
    ghost var active: seq<Name>

    constructor (package: Loaders)
      ensures this.package == package && loaded == map[] && begun == [] && ended == [] && active == []
    {
      this.package := package;
      loaded, begun, ended, active := map[], [], [], [];
    }

    /** The loader loop of ll_require: the error message is the concatenation of the texts seen so far. */
    method FindLoader(name: Name) returns (found: Found)
      ensures found == Find(package, name)
    {
      if package.NotATable? {
        return Missing(NoLoadersTable);
      }
      var message := "";
      var i := 0;
      while i < |package.loaders|
        invariant 0 <= i <= |package.loaders|
        invariant Search(package.loaders, name, "") == Search(package.loaders[i..], name, message)
      {
        match package.loaders[i](name) {
          case Function(body) => return Module(body);
          case Message(text) => message := message + text;
          case Other =>
          case LoaderRaised => return Missing(LoaderFailed);
        }
        i := i + 1;
      }
      found := Missing(NotFound(message));
    }

    method LlRequire(name: Name, ghost names: set<Name>) returns (status: Status)
      requires FiniteModules(package, names)
      modifies this
      ensures var r := Require(package, names, old(loaded), name);
        && status == r.status && loaded == r.loaded
        && begun == old(begun) + r.begun && ended == old(ended) + r.ended && active == old(active) + r.active
      ensures status.Ok? ==>
        && status == Ok(Get(loaded, name))
        && (IsTrue(old(Get(loaded, name))) ==> status == Ok(old(Get(loaded, name))))
        && (Pending(old(loaded), name) ==>
             Find(package, name).Module? && Find(package, name).body.outcome.Return?
             && var v := Find(package, name).body.outcome.v;
                status == Ok(if v == Nil || v == Sentinel then True else v))
      decreases names - Sentinels(loaded), 1
    {
      if Require(package, names, loaded, name).status.Ok? {
        ModulesYieldTheirValues(package, names, loaded, name);
      }
      var v := Get(loaded, name);
      if IsTrue(v) {
        return if v == Sentinel then Failed(Loop(name)) else Ok(v);
      }
      var found := FindLoader(name);
      if found.Missing? {
        return Failed(Unloadable(name, found.why));
      }
      status := RunModule(name, found.body, names);
    }

    /** The second half of ll_require: mark, run, store the result, and read the slot back. */
    method RunModule(name: Name, body: Body, ghost names: set<Name>) returns (status: Status)
      requires FiniteModules(package, names)
      requires Pending(loaded, name) && Find(package, name) == Module(body)
      modifies this
      ensures var r := Require(package, names, old(loaded), name);
        && status == r.status && loaded == r.loaded
        && begun == old(begun) + r.begun && ended == old(ended) + r.ended && active == old(active) + r.active
      decreases names - Sentinels(loaded), 0
    {
      hide Require, RequireAll, Find, Search, FiniteModules, Sentinels, Settled;
      RequireEnters(package, names, loaded, name, body);
      loaded := loaded[name := Sentinel];
      begun, active := begun + [name], active + [name];
      ghost var marked := loaded;
      ghost var nested := RequireAll(package, names, marked, body.needs);
      SentinelStays(package, names, marked, body.needs, name);
      var inner := RunBody(body.needs, names);
      assert begun == old(begun) + ([name] + nested.begun);
      assert active == old(active) + ([name] + nested.active);
      if inner.Failed? {
        return inner;
      }
      if body.outcome.Raise? {
        return Failed(Raised(name));
      }
      var v := StoreResult(name, body.outcome.v);
      status := Ok(v);
    }

    /** Store a non-nil result, read the slot back, and replace a sentinel still there by true. */
    method StoreResult(name: Name, returned: Value) returns (v: Value)
      requires Get(loaded, name) == Sentinel && active != [] && active[|active| - 1] == name
      modifies this
      ensures v == (if returned == Nil || returned == Sentinel then True else returned) == Settled(returned)
      ensures loaded == old(loaded)[name := v]
      ensures begun == old(begun) && ended == old(ended) + [name] && active == old(active)[..|old(active)| - 1]
    {
      if returned != Nil {
        loaded := loaded[name := returned];
      }
      v := Get(loaded, name);
      if v == Sentinel {
        v := True;
        loaded := loaded[name := v];
      }
      ended, active := ended + [name], active[..|active| - 1];
    }

    /** The nested require calls of a running module, in order; an error leaves the rest unexecuted. */
    method RunBody(needs: seq<Name>, ghost names: set<Name>) returns (status: Status)
      requires FiniteModules(package, names)
      modifies this
      ensures var r := RequireAll(package, names, old(loaded), needs);
        && status == r.status && loaded == r.loaded
        && begun == old(begun) + r.begun && ended == old(ended) + r.ended && active == old(active) + r.active
      decreases names - Sentinels(loaded), 2 + |needs|
    {
      hide Require, FiniteModules, Sentinels;
      if needs == [] {
        return Ok(Nil);
      }
      status := LlRequire(needs[0], names);
      if status.Ok? {
        status := RunBody(needs[1..], names);
      }
    }
  }
}
