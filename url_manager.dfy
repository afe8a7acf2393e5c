/**
 * `UrlManager` of src/url_manager.rs: two sets updated in place, proved
 * against the value model in module Frontier.
 */
module UrlManagement {
  import opened Wrappers
  import opened Frontier

  class UrlManager {
    var visited: set<string>
    var toVisit: set<string>

    /** The frontier value the two fields hold. */
    function State(): Frontier.State
      reads this
    {
      Frontier.State(visited, toVisit)
    }

    ghost predicate Valid()
      reads this
    {
      Disjoint(State())
    }

    constructor ()
      ensures Valid()
      ensures State() == Init()
    {
      visited := {};
      toVisit := {};
    }

    /** Queues every URL of `urls` that has not been visited yet. */
    method AddUrl(urls: seq<string>)
      requires Valid()
      modifies this
      ensures Valid()
      ensures State() == Added(old(State()), urls)
    {
      for i := 0 to |urls|
        invariant visited == old(visited)
        invariant toVisit == old(toVisit) + set u | u in urls[..i] && u !in visited
      {
        assert urls[..i + 1] == urls[..i] + [urls[i]];
        if urls[i] !in visited {
          toVisit := toVisit + {urls[i]};
        }
      }
      assert urls[..|urls|] == urls;
      AddedSpec(old(State()), urls);
    }

    /** Hands out some waiting URL and marks it visited, or returns None when nothing waits. */
    method GetNextUrl() returns (next: Option<string>)
      requires Valid()
      modifies this
      ensures Valid()
      ensures next.None? <==> old(toVisit) == {}
      ensures next.None? ==> State() == old(State())
      ensures next.Some? ==> Taken(old(State()), next.value, State())
    {
      if toVisit == {} {
        next := None;
      } else {
        var url :| url in toVisit;
        toVisit := toVisit - {url};
        visited := visited + {url};
        next := Some(url);
      }
    }

    /** True exactly when no URL is waiting; reads the state and changes nothing. */
    method IsEmpty() returns (empty: bool)
      ensures empty <==> toVisit == {}
    {
      empty := toVisit == {};
    }
  }

  /** The `url_management` unit test: what each step observes. */
  method UrlManagementTest() returns (initial: Option<string>, first: Option<string>, afterFirst: Option<string>,
                                      afterReAdd: Option<string>, marked: bool)
    ensures initial == None
    ensures first == Some("http://google.com")
    ensures afterFirst == None
    ensures afterReAdd == None
    ensures marked
  {
    var manager := new UrlManager();
    initial := manager.GetNextUrl();
    UrlManagementScenario("http://google.com");
    manager.AddUrl(["http://google.com"]);
    first := manager.GetNextUrl();
    afterFirst := manager.GetNextUrl();
    manager.AddUrl(["http://google.com"]);
    afterReAdd := manager.GetNextUrl();
    marked := "http://google.com" in manager.visited;
  }
}
