/**
 Failure scripts of the scripted provider: every account has one, a location can override it, and a
 scripted number of failures is used up one failed request at a time.
 */
module FetchScripts {
  import opened Wrappers

  datatype Behavior =
    | Success
    | FailThenSuccess(status: nat, failures: nat, retryAfter: Option<nat>)
    | AlwaysFail(status: nat, retryAfter: Option<nat>)

  predicate Failing(behavior: Behavior) {
    behavior.AlwaysFail? || (behavior.FailThenSuccess? && behavior.failures > 0)
  }

  /** The answer of a rejected request. */
  datatype Rejection = Rejection(status: nat, retryAfter: Option<nat>)

  /** What a script is after it failed one request. */
  function Charged(behavior: Behavior): Behavior
    requires Failing(behavior)
  {
    if behavior.FailThenSuccess? then behavior.(failures := behavior.failures - 1) else behavior
  }

  // ----- scripts in force

  /** A script's place: the account, or one location. */
  datatype Place = Account | Location(name: string)

  datatype Scripts = Scripts(account: Behavior, locations: map<string, Behavior>)

  predicate Has(scripts: Scripts, place: Place) {
    place.Account? || place.name in scripts.locations
  }

  function At(scripts: Scripts, place: Place): Behavior
    requires Has(scripts, place)
  {
    match place
    case Account => scripts.account
    case Location(name) => scripts.locations[name]
  }

  function With(scripts: Scripts, place: Place, behavior: Behavior): Scripts {
    match place
    case Account => scripts.(account := behavior)
    case Location(name) => scripts.(locations := scripts.locations[name := behavior])
  }

  /** Where the script that a location obeys stands: its own override shadows the account's script. */
  function EffectivePlace(scripts: Scripts, name: string): (place: Place)
    ensures Has(scripts, place)
  {
    if name in scripts.locations then Location(name) else Account
  }

  predicate FailsFor(scripts: Scripts, name: string) {
    Failing(At(scripts, EffectivePlace(scripts, name)))
  }

  /** The place of the script that fails a request for some locations, if one does. */
  function FailingPlace(scripts: Scripts, names: seq<string>): (place: Option<Place>)
    ensures place.Some? ==> Has(scripts, place.value) && Failing(At(scripts, place.value))
  {
    if names == [] then None
    else if FailsFor(scripts, names[0]) then Some(EffectivePlace(scripts, names[0]))
    else FailingPlace(scripts, names[1..])
  }

  /** The scripts after one request. */
  function AfterFetch(scripts: Scripts, names: seq<string>): Scripts {
    var place := FailingPlace(scripts, names);
    if place.None? then scripts else With(scripts, place.value, Charged(At(scripts, place.value)))
  }

  /** A request fails exactly when the script in force at some named location is failing, and the first such one fails it. */
  lemma {:induction false} FailsExactlyWhenOneFails(scripts: Scripts, names: seq<string>)
    ensures FailingPlace(scripts, names).Some? <==> exists i :: 0 <= i < |names| && FailsFor(scripts, names[i])
    ensures forall i ::
      0 <= i < |names| && FailsFor(scripts, names[i]) && (forall j :: 0 <= j < i ==> !FailsFor(scripts, names[j]))
      ==> FailingPlace(scripts, names) == Some(EffectivePlace(scripts, names[i]))
  {
    hide FailsFor, EffectivePlace;
    if names != [] {
      var rest := names[1..];
      FailsExactlyWhenOneFails(scripts, rest);
      assert forall i :: 0 < i < |names| ==> names[i] == rest[i - 1];
      forall i | 0 <= i < |names| && FailsFor(scripts, names[i]) && forall j :: 0 <= j < i ==> !FailsFor(scripts, names[j])
        ensures FailingPlace(scripts, names) == Some(EffectivePlace(scripts, names[i]))
      {
        if i > 0 {
          assert !FailsFor(scripts, names[0]);
          assert forall j :: 0 <= j < i - 1 ==> rest[j] == names[j + 1];
        }
      }
    }
  }

  function Remaining(scripts: Scripts, place: Place): nat
    requires Has(scripts, place)
  {
    var behavior := At(scripts, place);
    if behavior.FailThenSuccess? then behavior.failures else 0
  }

  /** One request charges one failure to the script that failed it and touches no other script. */
  lemma FetchCharges(scripts: Scripts, names: seq<string>, place: Place)
    requires Has(scripts, place)
    ensures var after := AfterFetch(scripts, names);
            && Has(after, place)
            && after.locations.Keys == scripts.locations.Keys
            && (FailingPlace(scripts, names) != Some(place) ==> At(after, place) == At(scripts, place))
            && (FailingPlace(scripts, names) == Some(place) ==>
                  if At(scripts, place).FailThenSuccess?
                  then Remaining(after, place) + 1 == Remaining(scripts, place)
                  else At(after, place) == At(scripts, place))
  {
  }

  // ----- runs

  /** The scripts after a run of requests, each for its list of locations. */
  ghost function AfterRun(scripts: Scripts, requests: seq<seq<string>>): Scripts
    decreases |requests|
  {
    if requests == [] then scripts else AfterRun(AfterFetch(scripts, requests[0]), requests[1..])
  }

  /** The requests of a run that the script at a place fails. */
  ghost function FailedBy(scripts: Scripts, requests: seq<seq<string>>, place: Place): nat
    decreases |requests|
  {
    if requests == [] then 0
    else
      (if FailingPlace(scripts, requests[0]) == Some(place) then 1 else 0)
      + FailedBy(AfterFetch(scripts, requests[0]), requests[1..], place)
  }

  /** The requests of a run that fail. */
  ghost function FailedRequests(scripts: Scripts, requests: seq<seq<string>>): nat
    decreases |requests|
  {
    if requests == [] then 0
    else
      (if FailingPlace(scripts, requests[0]).Some? then 1 else 0)
      + FailedRequests(AfterFetch(scripts, requests[0]), requests[1..])
  }

  /**
   Over any run of requests a budget is conserved: the failures it served and the failures it has left
   add up to what it held at the start. Every script stays where it is and of its kind.
   */
  lemma {:induction false} BudgetIsConserved(scripts: Scripts, requests: seq<seq<string>>, place: Place)
    requires Has(scripts, place)
    ensures var after := AfterRun(scripts, requests);
            && Has(after, place)
            && (At(scripts, place).FailThenSuccess? ==>
                  && At(after, place) == At(scripts, place).(failures := Remaining(after, place))
                  && Remaining(after, place) + FailedBy(scripts, requests, place) == Remaining(scripts, place))
            && (!At(scripts, place).FailThenSuccess? ==> At(after, place) == At(scripts, place))
            && (At(scripts, place).Success? ==> FailedBy(scripts, requests, place) == 0)
    decreases |requests|
  {
    if requests != [] {
      hide AfterFetch;
      var next := AfterFetch(scripts, requests[0]);
      FetchCharges(scripts, requests[0], place);
      ChargeKeepsTheRest(scripts, requests[0], place);
      BudgetIsConserved(next, requests[1..], place);
    }
  }

  /** A charge changes the count of failures left and nothing else of a script. */
  lemma ChargeKeepsTheRest(scripts: Scripts, names: seq<string>, place: Place)
    requires Has(scripts, place)
    ensures var after := AfterFetch(scripts, names);
            && Has(after, place)
            && (At(scripts, place).FailThenSuccess? ==>
                  At(after, place) == At(scripts, place).(failures := Remaining(after, place)))
  {
  }

  // ----- totals over all scripts

  /** A list of places that names every script once. */
  ghost predicate Lists(places: seq<Place>, scripts: Scripts) {
    && (forall place :: place in places <==> Has(scripts, place))
    && forall i, j :: 0 <= i < j < |places| ==> places[i] != places[j]
  }

  function RemainingIn(scripts: Scripts, places: seq<Place>): nat
    requires forall place :: place in places ==> Has(scripts, place)
  {
    if places == [] then 0 else Remaining(scripts, places[0]) + RemainingIn(scripts, places[1..])
  }

  ghost predicate NoneFailsForever(scripts: Scripts) {
    !scripts.account.AlwaysFail? && forall name :: name in scripts.locations ==> !scripts.locations[name].AlwaysFail?
  }

  /** A failed request takes one from the sum over any places that hold the script which failed it once. */
  lemma {:induction false} FetchTakesOne(scripts: Scripts, names: seq<string>, places: seq<Place>)
    requires NoneFailsForever(scripts)
    requires forall place :: place in places ==> Has(scripts, place)
    requires forall i, j :: 0 <= i < j < |places| ==> places[i] != places[j]
    ensures forall place :: place in places ==> Has(AfterFetch(scripts, names), place)
    ensures var failing := FailingPlace(scripts, names);
            RemainingIn(AfterFetch(scripts, names), places) + (if failing.Some? && failing.value in places then 1 else 0)
            == RemainingIn(scripts, places)
  {
    hide AfterFetch;
    forall place | place in places ensures Has(AfterFetch(scripts, names), place) {
      FetchCharges(scripts, names, place);
    }
    if places != [] {
      FetchCharges(scripts, names, places[0]);
      FetchTakesOne(scripts, names, places[1..]);
      assert places[0] !in places[1..];
      assert places == [places[0]] + places[1..];
    }
  }

  /**
   With no script that fails forever, every failed request is paid for by exactly one scripted failure:
   the failures left over all scripts and the failed requests add up to the failures scripted. A client
   that keeps asking is refused no more often than that.
   */
  lemma {:induction false} FailuresArePaidOnce(scripts: Scripts, requests: seq<seq<string>>, places: seq<Place>)
    requires NoneFailsForever(scripts) && Lists(places, scripts)
    ensures Lists(places, AfterRun(scripts, requests))
    ensures RemainingIn(AfterRun(scripts, requests), places) + FailedRequests(scripts, requests) == RemainingIn(scripts, places)
    decreases |requests|
  {
    if requests != [] {
      var next := AfterFetch(scripts, requests[0]);
      FetchTakesOne(scripts, requests[0], places);
      NoneFailsForeverStands(scripts, requests[0]);
      hide AfterFetch, RemainingIn, NoneFailsForever;
      FailuresArePaidOnce(next, requests[1..], places);
    }
  }

  lemma NoneFailsForeverStands(scripts: Scripts, names: seq<string>)
    requires NoneFailsForever(scripts)
    ensures NoneFailsForever(AfterFetch(scripts, names))
    ensures forall place :: Has(AfterFetch(scripts, names), place) <==> Has(scripts, place)
  {
  }

  /** A client that retries one location is refused exactly as often as its script in force says. */
  lemma {:induction false} RetriesFailThatOften(scripts: Scripts, name: string, tries: nat)
    requires At(scripts, EffectivePlace(scripts, name)).FailThenSuccess?
    ensures var failures := At(scripts, EffectivePlace(scripts, name)).failures;
            FailedRequests(scripts, seq(tries, i => [name])) == if tries < failures then tries else failures
    decreases tries
  {
    if tries > 0 {
      var requests := seq(tries, i => [name]);
      assert requests[0] == [name] && requests[1..] == seq(tries - 1, i => [name]);
      assert FailingPlace(scripts, [name]) == if FailsFor(scripts, name) then Some(EffectivePlace(scripts, name)) else None;
      RetriesFailThatOften(AfterFetch(scripts, [name]), name, tries - 1);
    }
  }

  // ----- replies

  datatype Reply = Reply(comment: string, updateTime: int)

  /** `content` stands for the fields that a reply leaves alone. */
  datatype Review = Review(name: string, content: string, reply: Option<Reply>)

  datatype Put = Put(location: string, review: string, reply: Reply)

  datatype ReplyState = ReplyState(behavior: Behavior, reviews: map<string, seq<Review>>)

  function Replied(reviews: seq<Review>, name: string, reply: Reply): seq<Review> {
    seq(|reviews|, i requires 0 <= i < |reviews| =>
      if reviews[i].name == name then reviews[i].(reply := Some(reply)) else reviews[i])
  }

  function AfterPut(state: ReplyState, put: Put): ReplyState {
    if Failing(state.behavior) then state.(behavior := Charged(state.behavior))
    else if put.location in state.reviews then
      state.(reviews := state.reviews[put.location := Replied(state.reviews[put.location], put.review, put.reply)])
    else state
  }

  function AfterPuts(state: ReplyState, puts: seq<Put>): ReplyState {
    if puts == [] then state else AfterPut(AfterPuts(state, puts[..|puts| - 1]), puts[|puts| - 1])
  }

  /** Whether the reply script lets the put at a position of a run through. */
  predicate LetsThrough(behavior: Behavior, position: nat) {
    match behavior
    case Success => true
    case FailThenSuccess(_, failures, _) => position >= failures
    case AlwaysFail(_, _) => false
  }

  /** The last reply to a review among the puts that got through. */
  function LastReply(behavior: Behavior, puts: seq<Put>, location: string, review: string): Option<Reply> {
    if puts == [] then None
    else
      var last := puts[|puts| - 1];
      if LetsThrough(behavior, |puts| - 1) && last.location == location && last.review == review then Some(last.reply)
      else LastReply(behavior, puts[..|puts| - 1], location, review)
  }

  /** The reply script after a run: its budget went down by one per put, as far as it reached. */
  lemma {:induction false} ReplyBudgetIsSpent(state: ReplyState, puts: seq<Put>)
    ensures AfterPuts(state, puts).behavior
            == if state.behavior.FailThenSuccess?
               then state.behavior.(failures := if |puts| < state.behavior.failures then state.behavior.failures - |puts| else 0)
               else state.behavior
  {
    if puts != [] {
      ReplyBudgetIsSpent(state, puts[..|puts| - 1]);
    }
  }

  /**
   After any run of puts each review holds the last reply that got through to it, or what it held before;
   no review appears, goes away, moves or changes otherwise.
   */
  lemma {:induction false} ReviewsHoldTheLastReply(state: ReplyState, puts: seq<Put>, location: string, i: nat)
    requires location in state.reviews && i < |state.reviews[location]|
    ensures var after, review := AfterPuts(state, puts).reviews, state.reviews[location][i];
            && after.Keys == state.reviews.Keys
            && |after[location]| == |state.reviews[location]|
            && var reply := LastReply(state.behavior, puts, location, review.name);
               after[location][i] == if reply.Some? then review.(reply := reply) else review
  {
    if puts != [] {
      var before := puts[..|puts| - 1];
      ReviewsHoldTheLastReply(state, before, location, i);
      ReplyBudgetIsSpent(state, before);
    }
  }

  // ----- the provider's state

  class MutableScope {
    var fetchBehavior: Behavior
    var fetchBehaviorByLocation: map<string, Behavior>
    var replyBehavior: Behavior
    var reviews: map<string, seq<Review>>

    ghost function FetchScripts(): Scripts
      reads this
    {
      Scripts(fetchBehavior, fetchBehaviorByLocation)
    }

    ghost function Replies(): ReplyState
      reads this
    {
      ReplyState(replyBehavior, reviews)
    }

    constructor (replyBehavior: Behavior, reviews: map<string, seq<Review>>)
      ensures FetchScripts() == Scripts(Success, map[]) && Replies() == ReplyState(replyBehavior, reviews)
    {
      fetchBehavior, fetchBehaviorByLocation := Success, map[];
      this.replyBehavior, this.reviews := replyBehavior, reviews;
    }

    /** The control route for fetch scripts; an empty location name addresses the account. */
    method ScriptFetch(locationName: Option<string>, behavior: Behavior)
      modifies this`fetchBehavior, this`fetchBehaviorByLocation
      ensures var place := if locationName.Some? && locationName.value != "" then Location(locationName.value) else Account;
              FetchScripts() == With(old(FetchScripts()), place, behavior)
    {
      if locationName.Some? && locationName.value != "" {
        fetchBehaviorByLocation := fetchBehaviorByLocation[locationName.value := behavior];
      } else {
        fetchBehavior := behavior;
      }
    }

    /** Rejects the request and charges the script that failed it, or lets it through and changes nothing. */
    method ApplyFetchBehavior(locationNames: seq<string>) returns (rejection: Option<Rejection>)
      modifies this`fetchBehavior, this`fetchBehaviorByLocation
      ensures FetchScripts() == AfterFetch(old(FetchScripts()), locationNames)
      ensures var place := FailingPlace(old(FetchScripts()), locationNames);
              && (rejection.Some? <==> place.Some?)
              && (place.Some? ==>
                    var script := At(old(FetchScripts()), place.value);
                    rejection.value.status == script.status && rejection.value.retryAfter == script.retryAfter)
      ensures rejection.Some? <==> exists i :: 0 <= i < |locationNames| && FailsFor(old(FetchScripts()), locationNames[i])
    {
      FailsExactlyWhenOneFails(FetchScripts(), locationNames);
      for k := 0 to |locationNames|
        invariant FetchScripts() == old(FetchScripts())
        invariant FailingPlace(old(FetchScripts()), locationNames) == FailingPlace(old(FetchScripts()), locationNames[k..])
      {
        var locationName := locationNames[k];
        assert locationNames[k..][0] == locationName && locationNames[k..][1..] == locationNames[k + 1..];
        var overridden := locationName in fetchBehaviorByLocation;
        var behavior := if overridden then fetchBehaviorByLocation[locationName] else fetchBehavior;
        if behavior.Success? || (behavior.FailThenSuccess? && behavior.failures <= 0) {
          continue;
        }
        if behavior.FailThenSuccess? {
          var next := behavior.(failures := behavior.failures - 1);
          if overridden {
            fetchBehaviorByLocation := fetchBehaviorByLocation[locationName := next];
          } else {
            fetchBehavior := next;
          }
        } else {
          assert overridden ==> fetchBehaviorByLocation[locationName := behavior] == fetchBehaviorByLocation;
        }
        return Some(Rejection(behavior.status, behavior.retryAfter));
      }
      return None;
    }

    /** The reply route for a known account. */
    method PutReply(locationName: string, reviewName: string, comment: string, now: int) returns (rejection: Option<Rejection>)
      modifies this`replyBehavior, this`reviews
      ensures Replies() == AfterPut(old(Replies()), Put(locationName, reviewName, Reply(comment, now)))
      ensures rejection == if Failing(old(replyBehavior)) then Some(Rejection(old(replyBehavior.status), None)) else None
    {
      if replyBehavior.AlwaysFail? {
        return Some(Rejection(replyBehavior.status, None));
      }
      if replyBehavior.FailThenSuccess? {
        var remaining := replyBehavior.failures;
        if remaining > 0 {
          rejection := Some(Rejection(replyBehavior.status, None));
          replyBehavior := replyBehavior.(failures := remaining - 1);
          return;
        }
      }
      if locationName in reviews {
        reviews := reviews[locationName := Replied(reviews[locationName], reviewName, Reply(comment, now))];
      }
      return None;
    }
  }
}
