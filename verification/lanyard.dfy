/**
 The presence payload the widget receives from the Lanyard API, as immutable values.

 Every optional property of the payload (`field?: T` in the source's interfaces) is an
 `Option`. JavaScript strings are modelled as `string`; numbers that the widget only
 tests for truthiness (timestamps) are `int`, and `Truthy` gives their truthiness.
 */
module Lanyard {

  datatype Option<+T> = None | Some(value: T)

  /** The `start` / `end` pair (epoch milliseconds) attached to an activity or a track. */
  datatype Timestamps = Timestamps(start: Option<int>, end: Option<int>)

  datatype Assets = Assets(
    largeImage: Option<string>,
    largeText: Option<string>,
    smallImage: Option<string>,
    smallText: Option<string>)

  /** One Discord activity. The source's `type` code is called `kind` here. */
  datatype Activity = Activity(
    id: string,
    name: string,
    kind: int,
    state: Option<string>,
    details: Option<string>,
    assets: Option<Assets>,
    timestamps: Option<Timestamps>)

  /** The track record Lanyard reports next to the activities. */
  datatype SpotifyData = SpotifyData(
    timestamps: Option<Timestamps>,
    album: Option<string>,
    albumArtUrl: Option<string>,
    artist: Option<string>,
    song: Option<string>,
    trackId: Option<string>)

  datatype DiscordUser = DiscordUser(username: string, globalName: string, avatar: string)

  /** One presence snapshot: the `data` member of a successful Lanyard response. */
  datatype Snapshot = Snapshot(
    user: DiscordUser,
    status: string,
    activities: seq<Activity>,
    listeningToSpotify: bool,
    spotify: Option<SpotifyData>)

  /** Activity type code of a Discord custom status. */
  const CustomStatusKind: int := 4

  /** Activity type code of "Listening to ...". */
  const ListeningKind: int := 2

  /** JavaScript truthiness of an optional number: absent and 0 are falsy. */
  predicate Truthy(n: Option<int>) {
    n.Some? && n.value != 0
  }

  /** `timestamps?.start` */
  function StartOf(ts: Option<Timestamps>): Option<int> {
    match ts
    case None => None
    case Some(t) => t.start
  }

  /** True when the activity carries a truthy start timestamp. */
  predicate HasStart(a: Activity) {
    Truthy(StartOf(a.timestamps))
  }

  /** True when the activity is anything but a custom status. */
  predicate IsNonCustom(a: Activity) {
    a.kind != CustomStatusKind
  }

  /** Index of the first element satisfying `p`, searching from `from` on;
      the index-level form of `Array.prototype.find`. */
  function FindIndexFrom<T>(xs: seq<T>, p: T -> bool, from: nat): (r: Option<nat>)
    requires from <= |xs|
    ensures r.Some? ==> from <= r.value < |xs| && p(xs[r.value])
    ensures r.Some? ==> forall j :: from <= j < r.value ==> !p(xs[j])
    ensures r.None? ==> forall j :: from <= j < |xs| ==> !p(xs[j])
    decreases |xs| - from
  {
    if from == |xs| then None
    else if p(xs[from]) then Some(from)
    else FindIndexFrom(xs, p, from + 1)
  }

  /** `xs.find(p)`: the first element satisfying `p`, if any. */
  function Find<T>(xs: seq<T>, p: T -> bool): (r: Option<T>)
    ensures r.Some? <==> exists i :: 0 <= i < |xs| && p(xs[i])
    ensures r.Some? ==> exists i :: 0 <= i < |xs| && xs[i] == r.value && p(xs[i])
                                     && forall j :: 0 <= j < i ==> !p(xs[j])
  {
    match FindIndexFrom(xs, p, 0)
    case None => None
    case Some(i) => Some(xs[i])
  }
}
