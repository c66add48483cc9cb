/**
 * update_events_paths.py: a name-to-href map built from the artist list,
 * then each event whose title is a name in the map gets that href as its
 * path, in place. Reading and writing the JSON files is not modelled.
 */
module UpdatePaths {
  import opened Wrappers

  datatype Artist = Artist(name: string, href: string)

  /**
   * An event object: `title` and `path` may be absent; `others` stands for
   * the remaining keys, which the script never touches.
   */
  datatype EventRecord = EventRecord(title: Option<string>, path: Option<string>, others: map<string, string>)

  /** `{artist['name']: artist['href'] for artist in artists}`: a later name overwrites an earlier one. */
  function ArtistPaths(artists: seq<Artist>): map<string, string> {
    if |artists| == 0 then map[]
    else
      var last := artists[|artists| - 1];
      ArtistPaths(artists[..|artists| - 1])[last.name := last.href]
  }

  /** Index i is the last artist carrying the given name. */
  predicate LastWithName(artists: seq<Artist>, name: string, i: int) {
    0 <= i < |artists| && artists[i].name == name &&
    forall j :: i < j < |artists| ==> artists[j].name != name
  }

  /**
   * The map's keys are exactly the artists' names, and each name maps to
   * the href of the last artist carrying it.
   */
  lemma {:induction false} ArtistPathsLastWins(artists: seq<Artist>, name: string)
    ensures name in ArtistPaths(artists) <==> exists i :: 0 <= i < |artists| && artists[i].name == name
    ensures name in ArtistPaths(artists) ==>
      exists i :: LastWithName(artists, name, i) && ArtistPaths(artists)[name] == artists[i].href
  {
    if |artists| > 0 {
      var init := artists[..|artists| - 1];
      var last := artists[|artists| - 1];
      ArtistPathsLastWins(init, name);
      forall i | 0 <= i < |init| ensures init[i] == artists[i] { }
      if last.name == name {
        assert LastWithName(artists, name, |artists| - 1);
      } else if name in ArtistPaths(init) {
        var i :| LastWithName(init, name, i) && ArtistPaths(init)[name] == init[i].href;
        assert LastWithName(artists, name, i);
      } else {
        assert forall i :: 0 <= i < |artists| ==> artists[i].name != name by {
          forall i | 0 <= i < |artists| ensures artists[i].name != name {
            if i < |init| {
              assert artists[i] == init[i];
            }
          }
        }
      }
    }
  }

  /** The loop body for one event. */
  function Updated(e: EventRecord, paths: map<string, string>): EventRecord {
    if e.title.Some? && e.title.value in paths then e.(path := Some(paths[e.title.value])) else e
  }

  /**
   * An event whose title is an artist name gets the href of the last artist
   * of that name as its path; any other event is left as it was; no other
   * key ever changes.
   */
  lemma UpdatedEvent(e: EventRecord, artists: seq<Artist>)
    ensures var u := Updated(e, ArtistPaths(artists));
      u.title == e.title && u.others == e.others &&
      (e.title.Some? && (exists i :: 0 <= i < |artists| && artists[i].name == e.title.value) ==>
        exists i :: LastWithName(artists, e.title.value, i) && u.path == Some(artists[i].href)) &&
      (!(e.title.Some? && exists i :: 0 <= i < |artists| && artists[i].name == e.title.value) ==> u == e)
  {
    if e.title.Some? {
      ArtistPathsLastWins(artists, e.title.value);
    }
  }

  /** Updating every event of a list: each in its place, so the length and order are kept. */
  function UpdatedAll(events: seq<EventRecord>, artists: seq<Artist>): (r: seq<EventRecord>)
    ensures |r| == |events|
    ensures forall i :: 0 <= i < |events| ==> r[i] == Updated(events[i], ArtistPaths(artists))
  {
    seq(|events|, i requires 0 <= i < |events| => Updated(events[i], ArtistPaths(artists)))
  }

  /** The `for event in events_data['events']` loop, updating each event object in place. */
  method UpdateEventPaths(events: array<EventRecord>, artists: seq<Artist>)
    modifies events
    ensures events[..] == UpdatedAll(old(events[..]), artists)
  {
    var artistPaths := ArtistPaths(artists);
    for i := 0 to events.Length
      invariant forall j :: 0 <= j < i ==> events[j] == Updated(old(events[j]), artistPaths)
      invariant forall j :: i <= j < events.Length ==> events[j] == old(events[j])
    {
      var event := events[i];
      if event.title.Some? && event.title.value in artistPaths {
        events[i] := event.(path := Some(artistPaths[event.title.value]));
      }
    }
    assert events[..] == UpdatedAll(old(events[..]), artists);
  }

  /** Running the update twice changes nothing more. */
  lemma UpdateIdempotent(events: seq<EventRecord>, artists: seq<Artist>)
    ensures UpdatedAll(UpdatedAll(events, artists), artists) == UpdatedAll(events, artists)
  {
  }
}
