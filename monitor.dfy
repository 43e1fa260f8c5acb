/**
 * One run of `monitor_websites` in monitor.py, as a transition from the previous state to
 * the state that is saved and the notification that is sent. Loading and saving the JSON
 * file, the webhook POST and the console log are the caller's I/O around this transition.
 */
module Monitor {
  import opened Wrappers
  import opened Targets
  import opened Detection
  import opened Notification

  /** The notification a list of changes leads to: none when it is empty, else its message. */
  function NotificationFor(changes: seq<Change>): (r: Option<string>)
    ensures r.Some? <==> changes != []
    ensures r.Some? ==> r.value != "" && r.value == Message(changes)
  {
    if changes == [] then None else Some(Message(changes))
  }

  /** One monitoring pass: expand the configuration, check every target against the
      previous state, build the notification when something changed, and return the new
      state, which replaces the previous one whether or not anything changed. */
  method MonitorWebsites(sites: seq<SiteConfig>, previous: State,
                         pages: string -> Option<seq<string>>,
                         resolve: (string, string) -> Option<string>,
                         fetch: (string, Option<string>) -> Option<string>,
                         hash: string -> string, now: string)
    returns (saved: State, notification: Option<string>)
    ensures var targets := Expansion(sites, pages, resolve);
      && saved == Recorded(targets, fetch, hash, now)
      && notification == NotificationFor(Detected(previous, targets, fetch, hash))
  {
    var targets := ExpandTargets(sites, pages, resolve);
    var current, changes := CheckTargets(previous, targets, fetch, hash, now);
    if changes != [] {
      var message := BuildMessage(changes);
      notification := Some(message);
    } else {
      notification := None;
    }
    saved := current;
  }

  /** The saved state holds exactly the targets fetched in this run: a URL is saved if and
      only if some target with that URL was fetched, so every URL of the previous state
      that no fetched target has is dropped. */
  lemma SavedStateKeys(sites: seq<SiteConfig>, previous: State,
                       pages: string -> Option<seq<string>>,
                       resolve: (string, string) -> Option<string>,
                       fetch: (string, Option<string>) -> Option<string>,
                       hash: string -> string, now: string)
    ensures var targets := Expansion(sites, pages, resolve);
      var saved := Recorded(targets, fetch, hash, now);
      && (forall url :: url in saved <==>
            exists i :: 0 <= i < |targets| && targets[i].url == url && Succeeded(targets[i], fetch))
      && (forall url :: url in previous && url in saved ==>
            exists i :: 0 <= i < |targets| && targets[i].url == url)
  {
    RecordedKeys(Expansion(sites, pages, resolve), fetch, hash, now);
  }

  /** Running twice over unchanged pages notifies nothing the second time and keeps every
      saved hash, provided targets that share a URL share a selector. */
  lemma SecondRunIsQuiet(sites: seq<SiteConfig>, previous: State,
                         pages: string -> Option<seq<string>>,
                         resolve: (string, string) -> Option<string>,
                         fetch: (string, Option<string>) -> Option<string>,
                         hash: string -> string, now: string, later: string)
    requires SameUrlSameSelector(Expansion(sites, pages, resolve))
    ensures var targets := Expansion(sites, pages, resolve);
      var first := Recorded(targets, fetch, hash, now);
      var second := Recorded(targets, fetch, hash, later);
      && NotificationFor(Detected(first, targets, fetch, hash)) == None
      && first.Keys == second.Keys
      && (forall url :: url in first ==> second[url].hash == first[url].hash)
  {
    var targets := Expansion(sites, pages, resolve);
    RerunReportsNothing(targets, fetch, hash, now);
    RecordedAtAnotherTime(targets, fetch, hash, now, later);
  }
}
