# Discord presence widget — a Dafny model

This project models the logic of the portfolio site's Discord presence widget
(`DiscordRPC` in `src/components/discord-rpc.tsx`). The widget polls the Lanyard
presence API, keeps the last good presence snapshot, and picks one activity to show.
It also chooses a start timestamp for the "elapsed" line, turns asset references into
image URLs, and maps the user's status to a dot colour and the activity to an icon.
The rest of the repository is JSX, styling and animation, and is not modelled.

Everything is a total function over immutable values:

- `lanyard.dfy` (module `Lanyard`): the payload. It holds the activity, asset,
  timestamp, Spotify and snapshot records. It also defines JavaScript truthiness of
  optional numbers and `Find`, the `Array.prototype.find` the widget relies on.
- `image_url.dfy` (module `ImageUrl`): `formatImageUrl`. The regular expression
  `/https?:\/\/[^/]+(\/.*)/` is modelled as a `Span` and a declarative `IsMatch`.
  The search `FindMatch` is proved to return the leftmost match, and that match is
  proved unique.
- `selection.dfy` (module `Selection`): `getMainActivity`, with its priority order.
- `elapsed.dfy` (module `Elapsed`): the choice of start timestamp in `updateElapsedTime`.
- `poller.dfy` (module `Poller`): the widget state. It covers how one poll outcome
  changes it (`fetchLanyardData`), the one-second refresh, and a series of polls.
- `display.dfy` (module `Display`): `getStatusColor`, the status dot, and `getActivityIcon`.

Three facts about the code shape the model:

- `formatImageUrl` has exactly five cases (src/components/discord-rpc.tsx:101-126):
  absent or empty, `http`, `mp:external`, `spotify:`, and everything else, which goes
  to the app-assets CDN. It has no emoji-ID, `mp:attachments`, YouTube,
  application-id or placeholder-URL branch.
- `fetch` is called without an abort signal, so a request has no timeout
  (src/components/discord-rpc.tsx:66).
- The placeholder activity ("Code", "Idling") appears only before the first snapshot
  (src/components/discord-rpc.tsx:153-155). A snapshot with no activities and no track
  yields no activity at all, `null` (src/components/discord-rpc.tsx:186).

Strings are `seq<char>`. Every prefix and literal the widget uses is ASCII, so
counting characters and counting JavaScript's UTF-16 code units agree at the only
index the code uses (`substring(8)`).

## Model

| member | source | states |
|---|---|---|
| Lanyard.FindIndexFrom | src/components/discord-rpc.tsx:176 | the index found holds the predicate, no earlier index does, and none is found only when no index holds it |
| Lanyard.Find | src/components/discord-rpc.tsx:87 | `find` yields a value exactly when some element satisfies the predicate, and then it is the first such element |
| ImageUrl.FormatImageUrl | src/components/discord-rpc.tsx:101-126 | absent or empty gives ""; an `http` prefix is returned unchanged; `mp:external` gives the regex result; `spotify:` gives the Spotify image base plus the input after its first 8 characters; every other non-empty input gives the app-assets base plus the input |
| ImageUrl.NextSlash | src/components/discord-rpc.tsx:112 | the host part `[^/]+` ends at the first '/' after the scheme |
| ImageUrl.LineEnd | src/components/discord-rpc.tsx:112 | the greedy `.*` ends at the first line terminator or at the end of the input |
| ImageUrl.HostStart | src/components/discord-rpc.tsx:112 | `https?://` matches at an index exactly when "http://" or "https://" sits there |
| ImageUrl.MatchAt | src/components/discord-rpc.tsx:112 | a match reported at an index satisfies the declarative match description |
| ImageUrl.FindMatch | src/components/discord-rpc.tsx:112 | a match found from an index starts at or after it and satisfies the match description |
| ImageUrl.MatchUnique | src/components/discord-rpc.tsx:112 | the regular expression has at most one match per start index, since the greedy quantifiers leave no choice |
| ImageUrl.MatchAtComplete | src/components/discord-rpc.tsx:112 | whenever a match starts at an index, the matcher finds exactly that match |
| ImageUrl.FindMatchLeftmost | src/components/discord-rpc.tsx:112-113 | the search returns the leftmost match, and reports none only when the input holds no match |
| ImageUrl.ExternalBranch | src/components/discord-rpc.tsx:110-117 | an `mp:external` reference gives "" if and only if it holds no match; otherwise it gives the text of its leftmost match |
| ImageUrl.MatchTextShaped | src/components/discord-rpc.tsx:112-114 | every match text starts with "http://" or "https://", has a non-empty host without '/', and then has a '/' |
| ImageUrl.ExternalUrlShape | src/components/discord-rpc.tsx:110-117 | a non-empty `mp:external` result is URL-shaped, and is a suffix of the input when the input has no line terminator |
| ImageUrl.ExternalNeedsSchemeSeparator | src/components/discord-rpc.tsx:110-117 | an `mp:external` reference without "://" anywhere yields "" |
| ImageUrl.PrefixesExclusive | src/components/discord-rpc.tsx:105-122 | no string starts with two of "http", "mp:external" and "spotify:", so the order of the prefix checks decides nothing among them |
| ImageUrl.BaseIsAbsolute | src/components/discord-rpc.tsx:121-125 | both CDN bases produce URLs that start with "http" |
| ImageUrl.ExternalIsAbsolute | src/components/discord-rpc.tsx:113-114 | a non-empty `mp:external` result starts with "http" |
| ImageUrl.FormatIsAbsolute | src/components/discord-rpc.tsx:101-126 | every result is "" or starts with "http" |
| ImageUrl.FormatIdempotent | src/components/discord-rpc.tsx:101-126 | normalising an already normalised URL returns it unchanged |
| ImageUrl.SpotifyRemainderKept | src/components/discord-rpc.tsx:120-122 | the Spotify result starts with the image base, and removing the base gives back the input after "spotify:" verbatim |
| ImageUrl.AppAssetInjective | src/components/discord-rpc.tsx:124-125 | the app-assets fallback maps distinct references to distinct URLs |
| Selection.PreferredActivity | src/components/discord-rpc.tsx:175-186 | with the track absent, the result is none exactly when the list is empty; otherwise it is the first non-custom activity, or the first activity when all are custom statuses |
| Selection.MainActivity | src/components/discord-rpc.tsx:152-187 | no snapshot gives the placeholder and isSpotify false; isSpotify holds iff listening and a track is present, and then the activity is the track's pseudo-activity; otherwise the activity follows the fallback rule over the list |
| Selection.PreferredUnique | src/components/discord-rpc.tsx:175-184 | the fallback rule names a single index |
| Selection.FallbackFromList | src/components/discord-rpc.tsx:175-186 | without the track, a shown activity is an element of the list, and a non-custom activity is shown whenever one exists |
| Selection.SkipsLeadingCustomStatus | src/components/discord-rpc.tsx:175-179 | with a custom status first and a non-custom activity second, the second is shown, with isSpotify false |
| Selection.SpotifyIgnoresActivities | src/components/discord-rpc.tsx:157-173 | with the track playing, the choice does not depend on the activity list; it has id "spotify", name "Spotify", type 2, state = artist, details = song, large image = album art, and the track's timestamps |
| Elapsed.ElapsedStart | src/components/discord-rpc.tsx:85-97 | the chosen start is non-zero; it is the start of the first activity with a truthy start; when no activity has one, it is the track's start if listening and that start is truthy; otherwise there is none |
| Elapsed.UpdateElapsed | src/components/discord-rpc.tsx:85-98 | the elapsed text becomes the formatted chosen start, and stays unchanged when there is none |
| Elapsed.ActivityBeforeTrack | src/components/discord-rpc.tsx:87-96 | while the card shows the Spotify track, a timed activity still supplies the elapsed time, so the time shown need not be the track's |
| Elapsed.UpdateElapsedSource | src/components/discord-rpc.tsx:89-97 | the text only ever becomes a formatted non-zero start, and it ignores the previous text whenever a start exists |
| Poller.Accepted | src/components/discord-rpc.tsx:66-78 | a payload is accepted iff the request settled, the status is 200-299, the body parsed, and `success` is true; the payload is the body's `data` |
| Poller.PollStep | src/components/discord-rpc.tsx:64-83 | an accepted payload replaces the snapshot and refreshes the elapsed text from it; every failure leaves the whole state unchanged |
| Poller.Tick | src/components/discord-rpc.tsx:138-142 | the one-second refresh never changes the snapshot, does nothing before the first snapshot, and otherwise recomputes the elapsed text from the snapshot |
| Poller.PollIsStoreThenTick | src/components/discord-rpc.tsx:71-75 | an accepted poll equals storing the payload and then refreshing, and refreshing twice at one instant (the same `format`) equals refreshing once |
| Poller.LastGoodSnapshotWins | src/components/discord-rpc.tsx:64-83 | after any series of polls, the snapshot is the payload of the last accepted poll; if none was accepted, the state is exactly as before |
| Poller.PlaceholderUntilFirstAccepted | src/components/discord-rpc.tsx:56-72 | from the mounted state, the widget has no snapshot exactly when no poll in the series was accepted |
| Poller.SnapshotNeverLost | src/components/discord-rpc.tsx:79-82 | once a snapshot is held, no series of failed or successful polls removes it |
| Poller.LastAcceptedIndex | src/components/discord-rpc.tsx:64-83 | when some poll in a series was accepted, there is a last one |
| Display.StatusColor | src/components/discord-rpc.tsx:210-217 | green iff "online", yellow iff "idle", red iff "dnd", gray iff any other string |
| Display.ClassNameInjective | src/components/discord-rpc.tsx:212-215 | the four colours are rendered with four distinct classes |
| Display.StatusClass | src/components/discord-rpc.tsx:255 | the dot's class is "bg-red-500" before the first snapshot, then "bg-green-500", "bg-yellow-500", "bg-red-500" or "bg-gray-500" for "online", "idle", "dnd" or any other status |
| Display.StatusDot | src/components/discord-rpc.tsx:255 | the dot is red before the first snapshot, and the status colour afterwards |
| Display.RedDotMeaning | src/components/discord-rpc.tsx:255 | a red dot means either no snapshot yet or status "dnd" |
| Display.ActivityIcon | src/components/discord-rpc.tsx:190-207 | no activity gives the generic glyph; the Spotify pseudo-activity gives music; otherwise Code, Terminal and music follow the names "Code", "Terminal" and "Spotify" |
| Display.IconOfChoice | src/components/discord-rpc.tsx:190-207 | the placeholder gets the code glyph, the track gets music, and a snapshot without activities and with no track playing gets the generic glyph |

## Left out

- The HTTP request and JSON decoding (`fetch`, `response.json()`). Their result is the input `Poller.FetchOutcome`.
- Poller.SnapshotNeverLost and Poller.LastGoodSnapshotWins hold only for payloads shaped like a snapshot. In the code, a `{success: true}` body whose `data` is missing or `null` is stored at line 72, and the widget then falls back to the placeholder. A `data` without `activities` is stored too, and reading `activities` then throws before the elapsed text changes. The model's payload is always a snapshot.
- The timers (`setInterval`, `clearInterval`) and their cleanup, and the scheduling of polls. The effect lists `lanyardData` as a dependency (line 149), so it re-runs after every accepted poll and fetches at once (line 132). While polls succeed, fetches therefore run back to back rather than every 15 seconds, and fetches in flight are never cancelled. `Poller.RunPolls` takes any series of outcomes in the order their responses settle, so it covers every such schedule. `Poller.Tick` models the effect of one refresh, not when refreshes happen.
- `formatDistanceToNow` from date-fns reads the wall clock. It is the parameter `format`; only the choice of start timestamp is modelled.
- `console.error` logging of failures. It has no effect on state.
- The `onError` placeholder-image swap on the `<img>`. It is a DOM event.
- The JSX rendering, the hover state, and the text fallbacks in the markup. The one exception is the status-dot colour (`Display.StatusDot`).
- The `buttons` and `created_at` fields of an activity. No modelled logic reads them.
- Timestamps are integers. JavaScript numbers that are `NaN` or fractional, which are also falsy or truthy, are not modelled.
- The `error` and `loading` state variables. The widget never reads them.
- The rest of the repository: the theme switch, hover effects, blog pages, clipboard, layout metadata and build configuration. It is presentation code.
