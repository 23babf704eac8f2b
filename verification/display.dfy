/**
 The small total mappings the widget renders with: the colour of the status dot
 (`getStatusColor`) and the fallback icon of the activity card (`getActivityIcon`).
 */
module Display {
  import opened Lanyard
  import Selection

  datatype Color = Green | Yellow | Red | Gray

  /** The Tailwind class the widget uses for each colour. */
  function ClassName(c: Color): string {
    match c
    case Green => "bg-green-500"
    case Yellow => "bg-yellow-500"
    case Red => "bg-red-500"
    case Gray => "bg-gray-500"
  }

  /** Distinct colours are rendered with distinct classes. */
  lemma ClassNameInjective(c: Color, d: Color)
    requires ClassName(c) == ClassName(d)
    ensures c == d
  {
  }

  /** `getStatusColor`: the colour of a Discord status string. */
  function StatusColor(status: string): (c: Color)
    ensures c == Green <==> status == "online"
    ensures c == Yellow <==> status == "idle"
    ensures c == Red <==> status == "dnd"
    ensures c == Gray <==> status !in {"online", "idle", "dnd"}
  {
    if status == "online" then Green
    else if status == "idle" then Yellow
    else if status == "dnd" then Red
    else Gray
  }

  /** The status dot: red until the first snapshot arrives, then the status colour. */
  function StatusDot(snapshot: Option<Snapshot>): (c: Color)
    ensures snapshot.None? ==> c == Red
    ensures snapshot.Some? ==> c == StatusColor(snapshot.value.status)
  {
    match snapshot
    case None => Red
    case Some(data) => StatusColor(data.status)
  }

  /** The class of the status dot as the markup computes it: "bg-red-500" before the
      first snapshot, otherwise the class of the status colour. */
  function StatusClass(snapshot: Option<Snapshot>): (cls: string)
    ensures snapshot.None? ==> cls == "bg-red-500"
    ensures snapshot.Some? && snapshot.value.status == "online" ==> cls == "bg-green-500"
    ensures snapshot.Some? && snapshot.value.status == "idle" ==> cls == "bg-yellow-500"
    ensures snapshot.Some? && snapshot.value.status == "dnd" ==> cls == "bg-red-500"
    ensures snapshot.Some? && snapshot.value.status !in {"online", "idle", "dnd"}
            ==> cls == "bg-gray-500"
  {
    match snapshot
    case None => ClassName(Red)
    case Some(data) => ClassName(StatusColor(data.status))
  }

  /** The icons the card can fall back to. */
  datatype Icon = ActivityGlyph | MusicGlyph | CodeGlyph | TerminalGlyph

  /** `getActivityIcon`: no activity gives the generic glyph; the Spotify pseudo-activity
      gives the music glyph; otherwise the activity's name decides. */
  function ActivityIcon(activity: Option<Activity>, isSpotify: bool): (i: Icon)
    ensures activity.None? ==> i == ActivityGlyph
    ensures activity.Some? && isSpotify ==> i == MusicGlyph
    ensures activity.Some? && !isSpotify ==>
              (i == CodeGlyph <==> activity.value.name == "Code")
              && (i == MusicGlyph <==> activity.value.name == "Spotify")
              && (i == TerminalGlyph <==> activity.value.name == "Terminal")
  {
    match activity
    case None => ActivityGlyph
    case Some(a) =>
      if isSpotify then MusicGlyph
      else if a.name == "Code" then CodeGlyph
      else if a.name == "Spotify" then MusicGlyph
      else if a.name == "Terminal" then TerminalGlyph
      else ActivityGlyph
  }

  /** The dot is red both before the first snapshot and for "dnd": the two cannot be
      told apart by colour. */
  lemma RedDotMeaning(snapshot: Option<Snapshot>)
    ensures StatusDot(snapshot) == Red <==> snapshot.None? || snapshot.value.status == "dnd"
  {
  }

  /** The icon of the chosen activity: the code glyph before the first snapshot (the
      placeholder is named "Code"), the music glyph for the track, and the generic glyph
      when a snapshot has no activity at all. */
  lemma IconOfChoice(snapshot: Option<Snapshot>)
    ensures var c := Selection.MainActivity(snapshot);
            && (snapshot.None? ==> ActivityIcon(c.activity, c.isSpotify) == CodeGlyph)
            && (c.isSpotify ==> ActivityIcon(c.activity, c.isSpotify) == MusicGlyph)
            && (snapshot.Some? && |snapshot.value.activities| == 0 && !c.isSpotify ==>
                  ActivityIcon(c.activity, c.isSpotify) == ActivityGlyph)
  {
  }
}
