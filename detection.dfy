/**
 * The change-detection pass of `monitor_websites` in monitor.py: every target is fetched in
 * turn; a failed fetch skips it; a successful one writes a fresh record into a new state
 * that starts empty, and reports a change when the URL was in the previous state with a
 * different hash. The fetch (`get_page_content`) is an input `fetch(url, selector)`, `None`
 * on failure; SHA-256 is an uninterpreted `hash`; the clock is one timestamp `now`.
 */
module Detection {
  import opened Wrappers
  import opened Targets

  /** One entry of the saved state. A state read back from disk may lack `last_checked`. */
  datatype Record = Record(name: string, hash: string, lastChecked: Option<string>, selector: Option<string>)

  /** The monitoring state: URL to record. */
  type State = map<string, Record>

  /** One entry of `changes_detected`. */
  datatype Change = Change(name: string, url: string, previousCheck: string)

  /** What `get_page_content` gives for a target. */
  function Fetch(t: Target, fetch: (string, Option<string>) -> Option<string>): Option<string> {
    fetch(t.url, t.selector)
  }

  /** The record a successful check of `t` writes. */
  function FreshRecord(t: Target, content: string, hash: string -> string, now: string): Record {
    Record(t.name, hash(content), Some(now), t.selector)
  }

  /** A target was fetched successfully. */
  predicate Succeeded(t: Target, fetch: (string, Option<string>) -> Option<string>) {
    Fetch(t, fetch).Some?
  }

  /** Checking `t` reports a change: its fetch succeeded, its URL was in the previous state,
      and the stored hash differs from the hash of the fetched content. */
  predicate IsChange(previous: State, t: Target, fetch: (string, Option<string>) -> Option<string>,
                     hash: string -> string)
  {
    && Succeeded(t, fetch)
    && t.url in previous
    && previous[t.url].hash != hash(Fetch(t, fetch).value)
  }

  /** The change reported for `t`; the previous check time is 'Unknown' when not stored. */
  function ChangeOf(previous: State, t: Target): Change
    requires t.url in previous
  {
    Change(t.name, t.url, previous[t.url].lastChecked.GetOr("Unknown"))
  }

  /** The new state after checking `targets`: built from an empty map, one write per
      successful fetch, later writes to the same URL replacing earlier ones. */
  function Recorded(targets: seq<Target>, fetch: (string, Option<string>) -> Option<string>,
                    hash: string -> string, now: string): State
    decreases |targets|
  {
    if targets == [] then map[]
    else
      var state := Recorded(targets[..|targets| - 1], fetch, hash, now);
      var t := targets[|targets| - 1];
      match Fetch(t, fetch)
      case None => state
      case Some(content) => state[t.url := FreshRecord(t, content, hash, now)]
  }

  /** The changes reported while checking `targets` against `previous`, in target order. */
  function Detected(previous: State, targets: seq<Target>,
                    fetch: (string, Option<string>) -> Option<string>, hash: string -> string): seq<Change>
    decreases |targets|
  {
    if targets == [] then []
    else
      var changes := Detected(previous, targets[..|targets| - 1], fetch, hash);
      var t := targets[|targets| - 1];
      if IsChange(previous, t, fetch, hash) then changes + [ChangeOf(previous, t)] else changes
  }

  /** The loop over `urls_to_check`: fill `current_data` and `changes_detected`. */
  method CheckTargets(previous: State, targets: seq<Target>,
                      fetch: (string, Option<string>) -> Option<string>,
                      hash: string -> string, now: string)
    returns (current: State, changes: seq<Change>)
    ensures current == Recorded(targets, fetch, hash, now)
    ensures changes == Detected(previous, targets, fetch, hash)
  {
    current := map[];
    changes := [];
    var i := 0;
    while i < |targets|
      invariant 0 <= i <= |targets|
      invariant current == Recorded(targets[..i], fetch, hash, now)
      invariant changes == Detected(previous, targets[..i], fetch, hash)
    {
      var t := targets[i];
      assert targets[..i + 1][..i] == targets[..i];
      var content := fetch(t.url, t.selector);
      if content.Some? {
        var currentHash := hash(content.value);
        current := current[t.url := Record(t.name, currentHash, Some(now), t.selector)];
        if t.url in previous {
          if previous[t.url].hash != currentHash {
            changes := changes + [Change(t.name, t.url, previous[t.url].lastChecked.GetOr("Unknown"))];
          }
        }
      }
      i := i + 1;
    }
    assert targets[..i] == targets;
  }

  /** The keys of the new state are exactly the URLs of the targets whose fetch succeeded. */
  lemma {:induction false} RecordedKeys(targets: seq<Target>, fetch: (string, Option<string>) -> Option<string>,
                                        hash: string -> string, now: string)
    ensures forall url :: url in Recorded(targets, fetch, hash, now) <==>
              exists i :: 0 <= i < |targets| && targets[i].url == url && Succeeded(targets[i], fetch)
    decreases |targets|
  {
    if targets != [] {
      var init := targets[..|targets| - 1];
      RecordedKeys(init, fetch, hash, now);
      forall url | exists i :: 0 <= i < |targets| && targets[i].url == url && Succeeded(targets[i], fetch)
        ensures url in Recorded(targets, fetch, hash, now)
      {
        var i :| 0 <= i < |targets| && targets[i].url == url && Succeeded(targets[i], fetch);
        if i < |init| {
          assert init[i] == targets[i];
        }
      }
    }
  }

  /** The record of every URL in the new state is the fresh record of the last successful
      target with that URL. */
  lemma {:induction false} RecordedValues(targets: seq<Target>, fetch: (string, Option<string>) -> Option<string>,
                                          hash: string -> string, now: string)
    ensures var state := Recorded(targets, fetch, hash, now);
      forall i :: 0 <= i < |targets| && Succeeded(targets[i], fetch) &&
                  (forall j :: i < j < |targets| && targets[j].url == targets[i].url ==> !Succeeded(targets[j], fetch))
        ==> targets[i].url in state &&
            state[targets[i].url] == FreshRecord(targets[i], Fetch(targets[i], fetch).value, hash, now)
    decreases |targets|
  {
    if targets != [] {
      var init := targets[..|targets| - 1];
      RecordedValues(init, fetch, hash, now);
      forall i | 0 <= i < |init| ensures init[i] == targets[i] {
      }
    }
  }

  /** URLs of the previous state that no target checks any more are not carried over. */
  lemma {:induction false} StaleEntriesDropped(previous: State, targets: seq<Target>,
                            fetch: (string, Option<string>) -> Option<string>,
                            hash: string -> string, now: string)
    ensures forall url :: url in previous && (forall i :: 0 <= i < |targets| ==> targets[i].url != url) ==>
              url !in Recorded(targets, fetch, hash, now)
  {
    RecordedKeys(targets, fetch, hash, now);
  }

  /** The positions of the targets that report a change, in increasing order. */
  ghost function ChangedPositions(previous: State, targets: seq<Target>,
                                  fetch: (string, Option<string>) -> Option<string>,
                                  hash: string -> string): seq<nat>
    decreases |targets|
  {
    if targets == [] then []
    else
      var positions := ChangedPositions(previous, targets[..|targets| - 1], fetch, hash);
      if IsChange(previous, targets[|targets| - 1], fetch, hash) then positions + [|targets| - 1]
      else positions
  }

  /** The change list is exactly the changed targets, in target order: its k-th entry is the
      change of the k-th changed target, the positions increase, and every changed target
      is among them. */
  lemma {:induction false} DetectedExactly(previous: State, targets: seq<Target>,
                                           fetch: (string, Option<string>) -> Option<string>,
                                           hash: string -> string)
    ensures var changes := Detected(previous, targets, fetch, hash);
      var positions := ChangedPositions(previous, targets, fetch, hash);
      && |positions| == |changes|
      && (forall k :: 0 <= k < |positions| ==>
            && positions[k] < |targets|
            && IsChange(previous, targets[positions[k]], fetch, hash)
            && changes[k] == ChangeOf(previous, targets[positions[k]]))
      && (forall k, l :: 0 <= k < l < |positions| ==> positions[k] < positions[l])
      && (forall i :: 0 <= i < |targets| && IsChange(previous, targets[i], fetch, hash) ==> i in positions)
    decreases |targets|
  {
    if targets != [] {
      var init := targets[..|targets| - 1];
      DetectedExactly(previous, init, fetch, hash);
      forall i | 0 <= i < |init| ensures init[i] == targets[i] {
      }
    }
  }

  /** Every change is about a URL already in the previous state: a first observation never
      reports one. */
  lemma {:induction false} NoChangeOnFirstObservation(previous: State, targets: seq<Target>,
                                   fetch: (string, Option<string>) -> Option<string>,
                                   hash: string -> string)
    ensures forall c :: c in Detected(previous, targets, fetch, hash) ==> c.url in previous
  {
    DetectedExactly(previous, targets, fetch, hash);
    var changes := Detected(previous, targets, fetch, hash);
    var positions := ChangedPositions(previous, targets, fetch, hash);
    forall c | c in changes ensures c.url in previous {
      var k :| 0 <= k < |changes| && changes[k] == c;
      assert IsChange(previous, targets[positions[k]], fetch, hash);
    }
  }

  /** A change is reported for a URL if and only if some target with that URL was fetched,
      was in the previous state, and hashed differently from what was stored; content whose
      hash matches the stored one therefore reports nothing. */
  lemma {:induction false} ChangeReportedIff(previous: State, targets: seq<Target>,
                                             fetch: (string, Option<string>) -> Option<string>,
                                             hash: string -> string, url: string)
    ensures (exists c :: c in Detected(previous, targets, fetch, hash) && c.url == url) <==>
            (exists i :: 0 <= i < |targets| && targets[i].url == url && IsChange(previous, targets[i], fetch, hash))
    decreases |targets|
  {
    if targets != [] {
      var init, last := targets[..|targets| - 1], targets[|targets| - 1];
      ChangeReportedIff(previous, init, fetch, hash, url);
      if exists i :: 0 <= i < |init| && init[i].url == url && IsChange(previous, init[i], fetch, hash) {
        var i :| 0 <= i < |init| && init[i].url == url && IsChange(previous, init[i], fetch, hash);
        assert targets[i] == init[i];
      }
      if exists i :: 0 <= i < |targets| && targets[i].url == url && IsChange(previous, targets[i], fetch, hash) {
        var i :| 0 <= i < |targets| && targets[i].url == url && IsChange(previous, targets[i], fetch, hash);
        if i < |init| {
          assert init[i] == targets[i];
        } else {
          assert ChangeOf(previous, last) in Detected(previous, targets, fetch, hash);
        }
      }
    }
  }

  /** The record stored for `url` is the one the successful check of `targets[j]` wrote. */
  predicate WrittenBy(state: State, url: string, targets: seq<Target>, j: int,
                      fetch: (string, Option<string>) -> Option<string>, hash: string -> string, now: string)
  {
    && 0 <= j < |targets|
    && targets[j].url == url
    && Succeeded(targets[j], fetch)
    && url in state
    && state[url] == FreshRecord(targets[j], Fetch(targets[j], fetch).value, hash, now)
  }

  /** Every record of the new state is the fresh record of some successful target with
      that URL. */
  lemma {:induction false} RecordedFrom(targets: seq<Target>, fetch: (string, Option<string>) -> Option<string>,
                                        hash: string -> string, now: string)
    ensures forall url :: url in Recorded(targets, fetch, hash, now) ==>
              exists j :: WrittenBy(Recorded(targets, fetch, hash, now), url, targets, j, fetch, hash, now)
    decreases |targets|
  {
    if targets != [] {
      var init := targets[..|targets| - 1];
      RecordedFrom(init, fetch, hash, now);
      var state, earlier := Recorded(targets, fetch, hash, now), Recorded(init, fetch, hash, now);
      forall url | url in state
        ensures exists j :: WrittenBy(state, url, targets, j, fetch, hash, now)
      {
        var last := targets[|targets| - 1];
        if Succeeded(last, fetch) && last.url == url {
          assert WrittenBy(state, url, targets, |targets| - 1, fetch, hash, now);
        } else {
          assert url in earlier && state[url] == earlier[url];
          var j :| WrittenBy(earlier, url, init, j, fetch, hash, now);
          assert targets[j] == init[j];
          assert WrittenBy(state, url, targets, j, fetch, hash, now);
        }
      }
    }
  }

  /** The change list is empty exactly when no target reports a change. */
  lemma {:induction false} NoChangesIff(previous: State, targets: seq<Target>,
                                        fetch: (string, Option<string>) -> Option<string>,
                                        hash: string -> string)
    ensures Detected(previous, targets, fetch, hash) == [] <==>
            forall i :: 0 <= i < |targets| ==> !IsChange(previous, targets[i], fetch, hash)
    decreases |targets|
  {
    if targets != [] {
      var init := targets[..|targets| - 1];
      NoChangesIff(previous, init, fetch, hash);
      forall i | 0 <= i < |init| ensures init[i] == targets[i] {
      }
    }
  }

  /** Targets that share a URL share a selector, so they fetch the same content. */
  predicate SameUrlSameSelector(targets: seq<Target>) {
    forall i, j :: 0 <= i < |targets| && 0 <= j < |targets| && targets[i].url == targets[j].url ==>
      targets[i].selector == targets[j].selector
  }

  /** A second pass over the same targets with the same page contents reports no change,
      provided targets that share a URL share a selector. */
  lemma RerunReportsNothing(targets: seq<Target>, fetch: (string, Option<string>) -> Option<string>,
                            hash: string -> string, now: string)
    requires SameUrlSameSelector(targets)
    ensures Detected(Recorded(targets, fetch, hash, now), targets, fetch, hash) == []
  {
    var state := Recorded(targets, fetch, hash, now);
    RecordedFrom(targets, fetch, hash, now);
    NoChangesIff(state, targets, fetch, hash);
    forall i | 0 <= i < |targets| ensures !IsChange(state, targets[i], fetch, hash) {
      var t := targets[i];
      if Succeeded(t, fetch) && t.url in state {
        var j :| WrittenBy(state, t.url, targets, j, fetch, hash, now);
        assert targets[j].selector == t.selector;
        assert Fetch(targets[j], fetch) == Fetch(t, fetch);
      }
    }
  }

  /** Checking the same targets at another time gives the same URLs with the same names,
      hashes and selectors; only the check time differs. */
  lemma {:induction false} RecordedAtAnotherTime(targets: seq<Target>, fetch: (string, Option<string>) -> Option<string>,
                                                 hash: string -> string, now: string, later: string)
    ensures var s1, s2 := Recorded(targets, fetch, hash, now), Recorded(targets, fetch, hash, later);
      && s1.Keys == s2.Keys
      && forall url :: url in s1 ==> s2[url] == s1[url].(lastChecked := Some(later))
    decreases |targets|
  {
    if targets != [] {
      RecordedAtAnotherTime(targets[..|targets| - 1], fetch, hash, now, later);
    }
  }
}
