/**
 Which start timestamp drives the widget's "elapsed" line (`updateElapsedTime`).

 The rule differs from the display priority of `Selection.MainActivity`: the activity
 list is searched first, and the Spotify track is consulted only when no activity has a
 truthy start. The relative-time formatting itself (a library call that reads the clock)
 is a parameter `format`.
 */
module Elapsed {
  import opened Lanyard
  import Selection

  /** The start timestamp `updateElapsedTime` formats, or None when it leaves the text. */
  function ElapsedStart(data: Snapshot): (r: Option<int>)
    ensures r.Some? ==> r.value != 0
    ensures (exists i :: 0 <= i < |data.activities| && HasStart(data.activities[i])) ==>
              exists i :: && 0 <= i < |data.activities|
                          && HasStart(data.activities[i])
                          && (forall j :: 0 <= j < i ==> !HasStart(data.activities[j]))
                          && r == StartOf(data.activities[i].timestamps)
    ensures (forall i :: 0 <= i < |data.activities| ==> !HasStart(data.activities[i])) ==>
              if data.listeningToSpotify && data.spotify.Some?
                 && Truthy(StartOf(data.spotify.value.timestamps))
              then r == StartOf(data.spotify.value.timestamps)
              else r.None?
  {
    match Find(data.activities, HasStart)
    case Some(a) => StartOf(a.timestamps)
    case None =>
      if data.listeningToSpotify && data.spotify.Some?
         && Truthy(StartOf(data.spotify.value.timestamps))
      then StartOf(data.spotify.value.timestamps)
      else None
  }

  /** The elapsed text after `updateElapsedTime(data)`. */
  function UpdateElapsed(elapsed: string, data: Snapshot, format: int -> string): (e: string)
    ensures ElapsedStart(data).None? ==> e == elapsed
    ensures ElapsedStart(data).Some? ==> e == format(ElapsedStart(data).value)
  {
    match ElapsedStart(data)
    case None => elapsed
    case Some(start) => format(start)
  }

  /** A timed activity outranks the Spotify track here, while `MainActivity` shows the
      track: when no activity started together with the track, the card shows the track
      next to the time elapsed since some other activity began. */
  lemma ActivityBeforeTrack(data: Snapshot, i: int)
    requires Selection.PlaysSpotify(data)
    requires 0 <= i < |data.activities| && HasStart(data.activities[i])
    requires forall j :: 0 <= j < |data.activities| ==>
               StartOf(data.activities[j].timestamps) != StartOf(data.spotify.value.timestamps)
    ensures Selection.MainActivity(Some(data)).isSpotify
    ensures ElapsedStart(data).Some?
    ensures ElapsedStart(data) != StartOf(Selection.MainActivity(Some(data)).activity.value.timestamps)
  {
    var k :| && 0 <= k < |data.activities|
             && HasStart(data.activities[k])
             && ElapsedStart(data) == StartOf(data.activities[k].timestamps);
  }

  /** The text changes only to a formatted truthy start, and depends on the old text only
      when no start is available. */
  lemma UpdateElapsedSource(elapsed: string, other: string, data: Snapshot, format: int -> string)
    ensures UpdateElapsed(elapsed, data, format) == elapsed
            || exists t :: t != 0 && UpdateElapsed(elapsed, data, format) == format(t)
    ensures ElapsedStart(data).Some? ==>
              UpdateElapsed(elapsed, data, format) == UpdateElapsed(other, data, format)
  {
  }
}
