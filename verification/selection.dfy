/**
 The widget's choice of the one activity to display (`getMainActivity`).

 Priority: no snapshot yet gives a fixed placeholder; otherwise the Spotify track,
 when the user is listening and a track record is present; otherwise the first activity
 that is not a custom status; otherwise the first activity; otherwise nothing.
 */
module Selection {
  import opened Lanyard

  /** What `getMainActivity` returns: the activity to show (or none) and whether it is
      the pseudo-activity synthesised from the Spotify track. */
  datatype Choice = Choice(activity: Option<Activity>, isSpotify: bool)

  /** Shown before the first successful poll. */
  const Placeholder := Activity("placeholder", "Code", 0, None, Some("Idling"), None, None)

  /** The pseudo-activity the widget builds from a Spotify track. */
  function SpotifyActivity(sp: SpotifyData): Activity {
    Activity(
      "spotify", "Spotify", ListeningKind, sp.artist, sp.song,
      Some(Assets(sp.albumArtUrl, None, None, None)), sp.timestamps)
  }

  /** The Spotify track takes priority exactly when this holds. */
  predicate PlaysSpotify(data: Snapshot) {
    data.listeningToSpotify && data.spotify.Some?
  }

  /** Index `i` is the activity the fallback rule prefers: the first that is not a
      custom status, or the first of all when every one is a custom status. */
  ghost predicate IsPreferred(acts: seq<Activity>, i: int) {
    && 0 <= i < |acts|
    && ((IsNonCustom(acts[i]) && forall j :: 0 <= j < i ==> !IsNonCustom(acts[j]))
        || (i == 0 && forall j :: 0 <= j < |acts| ==> !IsNonCustom(acts[j])))
  }

  /** The fallback rule over the activity list alone. */
  function PreferredActivity(acts: seq<Activity>): (r: Option<Activity>)
    ensures r.None? <==> |acts| == 0
    ensures r.Some? ==> exists i :: IsPreferred(acts, i) && acts[i] == r.value
  {
    match Find(acts, IsNonCustom)
    case Some(a) => Some(a)
    case None => if |acts| > 0 then Some(acts[0]) else None
  }

  /** `getMainActivity` */
  function MainActivity(snapshot: Option<Snapshot>): (c: Choice)
    ensures snapshot.None? ==> c == Choice(Some(Placeholder), false)
    ensures c.isSpotify <==> snapshot.Some? && PlaysSpotify(snapshot.value)
    ensures c.isSpotify ==> c.activity == Some(SpotifyActivity(snapshot.value.spotify.value))
    ensures snapshot.Some? && !c.isSpotify ==>
              (c.activity.None? <==> |snapshot.value.activities| == 0)
    ensures snapshot.Some? && !c.isSpotify && c.activity.Some? ==>
              exists i :: IsPreferred(snapshot.value.activities, i)
                          && snapshot.value.activities[i] == c.activity.value
  {
    match snapshot
    case None => Choice(Some(Placeholder), false)
    case Some(data) =>
      if PlaysSpotify(data) then Choice(Some(SpotifyActivity(data.spotify.value)), true)
      else Choice(PreferredActivity(data.activities), false)
  }

  /** The fallback rule names a single index. */
  lemma PreferredUnique(acts: seq<Activity>, i: int, j: int)
    requires IsPreferred(acts, i) && IsPreferred(acts, j)
    ensures i == j
  {
  }

  /** Without the track, the shown activity is taken from the list, and a non-custom
      activity wins over every custom status. */
  lemma FallbackFromList(data: Snapshot)
    requires !PlaysSpotify(data)
    ensures MainActivity(Some(data)).activity.Some? ==>
              MainActivity(Some(data)).activity.value in data.activities
    ensures (exists j :: 0 <= j < |data.activities| && IsNonCustom(data.activities[j])) ==>
              MainActivity(Some(data)).activity.Some?
              && IsNonCustom(MainActivity(Some(data)).activity.value)
  {
    var c := MainActivity(Some(data));
    if exists j :: 0 <= j < |data.activities| && IsNonCustom(data.activities[j]) {
      var j :| 0 <= j < |data.activities| && IsNonCustom(data.activities[j]);
      var i :| IsPreferred(data.activities, i) && data.activities[i] == c.activity.value;
    }
  }

  /** A custom status in front of a non-custom activity is skipped: with the list
      `[{type: 4}, {type: 0}]` the second entry is shown. */
  lemma SkipsLeadingCustomStatus(data: Snapshot)
    requires !PlaysSpotify(data)
    requires |data.activities| >= 2
    requires !IsNonCustom(data.activities[0]) && IsNonCustom(data.activities[1])
    ensures MainActivity(Some(data)) == Choice(Some(data.activities[1]), false)
  {
    var i :| IsPreferred(data.activities, i)
             && data.activities[i] == MainActivity(Some(data)).activity.value;
    assert IsPreferred(data.activities, 1);
    PreferredUnique(data.activities, i, 1);
  }

  /** With the track playing, the activity list has no say in the choice. */
  lemma SpotifyIgnoresActivities(data: Snapshot, others: seq<Activity>)
    requires PlaysSpotify(data)
    ensures MainActivity(Some(data.(activities := others))) == MainActivity(Some(data))
    ensures MainActivity(Some(data)).activity.value.id == "spotify"
    ensures MainActivity(Some(data)).activity.value.name == "Spotify"
    ensures MainActivity(Some(data)).activity.value.kind == ListeningKind
    ensures MainActivity(Some(data)).activity.value.state == data.spotify.value.artist
    ensures MainActivity(Some(data)).activity.value.details == data.spotify.value.song
    ensures MainActivity(Some(data)).activity.value.assets.value.largeImage
            == data.spotify.value.albumArtUrl
    ensures MainActivity(Some(data)).activity.value.timestamps == data.spotify.value.timestamps
  {
  }
}
