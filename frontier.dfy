/**
 * The URL frontier as a value: the set of URLs already handed out
 * (`visited`) and the set still waiting (`toVisit`).  Both copies of
 * `UrlManager` (src/url_manager.rs and src/main.rs) are proved against
 * these definitions.
 */
module Frontier {
  import opened Wrappers

  datatype State = State(visited: set<string>, toVisit: set<string>)

  /** The frontier invariant: no URL is both visited and waiting. */
  predicate Disjoint(s: State) {
    s.visited !! s.toVisit
  }

  /** The frontier `UrlManager::new` creates. */
  function Init(): State {
    State({}, {})
  }

  /** The URLs occurring in a sequence. */
  function Elems<T>(xs: seq<T>): set<T> {
    set x | x in xs
  }

  predicate NoDuplicates<T(==)>(xs: seq<T>) {
    forall i, j :: 0 <= i < j < |xs| ==> xs[i] != xs[j]
  }

  /** The frontier after `add_url(urls)`: every given URL that is not visited is waiting. */
  function Added(s: State, urls: seq<string>): State {
    State(s.visited, s.toVisit + set u | u in urls && u !in s.visited)
  }

  /** `get_next_url` may return `u` from `s` and leave `s'`. */
  predicate Taken(s: State, u: string, s': State) {
    u in s.toVisit && s' == State(s.visited + {u}, s.toVisit - {u})
  }

  /** What `add_url` promises: only unvisited URLs become waiting, nothing is lost, visited is untouched. */
  lemma AddedSpec(s: State, urls: seq<string>)
    requires Disjoint(s)
    ensures Disjoint(Added(s, urls))
    ensures Added(s, urls).visited == s.visited
    ensures s.toVisit <= Added(s, urls).toVisit
    ensures forall u :: u in urls ==> (u in Added(s, urls).toVisit <==> u !in s.visited)
    ensures Added(s, urls).toVisit - s.toVisit <= Elems(urls)
  {
  }

  /** Adding the same URLs twice changes nothing, and URLs already known are silently dropped. */
  lemma AddedIdempotent(s: State, urls: seq<string>)
    ensures Added(Added(s, urls), urls) == Added(s, urls)
    ensures (forall u :: u in urls ==> u in s.visited || u in s.toVisit) ==> Added(s, urls) == s
  {
  }

  /** Adding a list in one call is the same as adding it in two pieces. */
  lemma AddedConcat(s: State, a: seq<string>, b: seq<string>)
    ensures Added(s, a + b) == Added(Added(s, a), b)
  {
  }

  /** What a successful `get_next_url` promises: the URL moves from waiting to visited. */
  lemma TakenSpec(s: State, u: string, s': State)
    requires Disjoint(s) && Taken(s, u, s')
    ensures Disjoint(s')
    ensures u !in s.visited && u in s'.visited && u !in s'.toVisit
    ensures |s'.visited| == |s.visited| + 1 && |s'.toVisit| == |s.toVisit| - 1
    ensures s'.visited + s'.toVisit == s.visited + s.toVisit
  {
  }

  /** One call on a `UrlManager`, with what `get_next_url` returned. */
  datatype Call = AddUrl(urls: seq<string>) | GetNextUrl(result: Option<string>)

  predicate Step(s: State, c: Call, s': State) {
    match c
    case AddUrl(urls) => s' == Added(s, urls)
    case GetNextUrl(None) => s.toVisit == {} && s' == s
    case GetNextUrl(Some(u)) => Taken(s, u, s')
  }

  /** The URL one call hands out: the result of a successful `get_next_url`, nothing otherwise. */
  function HandedOut(c: Call): seq<string> {
    if c.GetNextUrl? && c.result.Some? then [c.result.value] else []
  }

  /** The URLs handed out by `get_next_url` over a sequence of calls, in order. */
  function Returned(calls: seq<Call>): seq<string> {
    if calls == [] then [] else Returned(calls[..|calls| - 1]) + HandedOut(calls[|calls| - 1])
  }

  ghost predicate IsRun(states: seq<State>, calls: seq<Call>) {
    |states| == |calls| + 1 &&
    forall i :: 0 <= i < |calls| ==> Step(states[i], calls[i], states[i + 1])
  }

  /** The frontier facts a single call keeps, with what the call hands out. */
  lemma StepInvariant(s: State, c: Call, s': State)
    requires Disjoint(s) && Step(s, c, s')
    ensures Disjoint(s')
    ensures s'.visited == s.visited + Elems(HandedOut(c))
    ensures forall u :: u in HandedOut(c) ==> u !in s.visited
    ensures |HandedOut(c)| <= 1
  {
  }

  /** Appending a URL that is not among those handed out keeps them free of duplicates. */
  lemma NoDuplicatesAppend(xs: seq<string>, ys: seq<string>)
    requires NoDuplicates(xs) && |ys| <= 1 && Elems(xs) !! Elems(ys)
    ensures NoDuplicates(xs + ys)
    ensures Elems(xs + ys) == Elems(xs) + Elems(ys)
  {
    var zs := xs + ys;
    forall i, j | 0 <= i < j < |zs|
      ensures zs[i] != zs[j]
    {
      if j >= |xs| {
        assert zs[j] in Elems(ys);
        assert zs[i] == xs[i] && xs[i] in Elems(xs);
      } else {
        assert zs[i] == xs[i] && zs[j] == xs[j];
      }
    }
  }

  /** A prefix of a run is a run. */
  lemma RunPrefix(states: seq<State>, calls: seq<Call>, n: nat)
    requires IsRun(states, calls) && n <= |calls|
    ensures IsRun(states[..n + 1], calls[..n])
  {
  }

  /**
   * Over any sequence of calls: the invariant holds throughout, visited only
   * grows, and no URL is handed out twice or handed out when it was already visited.
   */
  lemma {:induction false} RunInvariant(states: seq<State>, calls: seq<Call>)
    requires IsRun(states, calls) && Disjoint(states[0])
    ensures Disjoint(states[|calls|])
    ensures states[|calls|].visited == states[0].visited + Elems(Returned(calls))
    ensures NoDuplicates(Returned(calls))
    ensures Elems(Returned(calls)) !! states[0].visited
  {
    if calls != [] {
      var n := |calls| - 1;
      RunPrefix(states, calls, n);
      RunInvariant(states[..n + 1], calls[..n]);
      assert states[..n + 1][0] == states[0] && states[..n + 1][n] == states[n];
      var prefix := Returned(calls[..n]);
      assert Returned(calls) == prefix + HandedOut(calls[n]);
      assert Step(states[n], calls[n], states[n + 1]);
      StepInvariant(states[n], calls[n], states[n + 1]);
      NoDuplicatesAppend(prefix, HandedOut(calls[n]));
    }
  }

  /** The `url_management` test, stated on the value model. */
  lemma UrlManagementScenario(g: string)
    ensures Step(Init(), GetNextUrl(None), Init())
    ensures Added(Init(), [g]) == State({}, {g})
    ensures forall u, s' :: Taken(State({}, {g}), u, s') ==> u == g && s' == State({g}, {})
    ensures Added(State({g}, {}), [g]) == State({g}, {})
  {
  }
}
