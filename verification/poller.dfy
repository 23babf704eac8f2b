/**
 The widget's local state and how a poll of the presence API changes it
 (`fetchLanyardData`), together with the once-a-second refresh of the elapsed text.

 The HTTP request and JSON decoding are not modelled; their outcome is an input
 `FetchOutcome`. The request has no timeout of its own: a request that never settles
 simply never produces an outcome.
 */
module Poller {
  import opened Lanyard
  import Elapsed

  /** The two pieces of state the polling code writes: the last accepted snapshot
      (`lanyardData`) and the elapsed text (`elapsed`). */
  datatype Widget = Widget(snapshot: Option<Snapshot>, elapsed: string)

  /** The state the widget mounts with. */
  const Initial := Widget(None, "about 1 hour")

  /** The decoded body of a response. */
  datatype Body =
    | Unparsable                          // `response.json()` rejects
    | Json(success: bool, data: Snapshot) // `{ success, data }`

  /** What one request yields. */
  datatype FetchOutcome =
    | NetworkError                        // `fetch` rejects
    | Response(status: int, body: Body)

  /** `response.ok`: a status in the range 200-299. */
  predicate IsOk(status: int) {
    200 <= status <= 299
  }

  /** The snapshot a poll accepts, if it accepts one. */
  function Accepted(o: FetchOutcome): (p: Option<Snapshot>)
    ensures p.Some? <==> o.Response? && IsOk(o.status) && o.body.Json? && o.body.success
    ensures p.Some? ==> p.value == o.body.data
  {
    match o
    case NetworkError => None
    case Response(status, body) =>
      if !IsOk(status) then None
      else
        match body
        case Unparsable => None
        case Json(success, data) => if success then Some(data) else None
  }

  /** One poll: a good response replaces the snapshot and refreshes the elapsed text from
      the new payload; every failure is swallowed and leaves the state as it was. */
  function PollStep(w: Widget, o: FetchOutcome, format: int -> string): (w': Widget)
    ensures Accepted(o).None? ==> w' == w
    ensures Accepted(o).Some? ==> w'.snapshot == Accepted(o)
    ensures Accepted(o).Some? ==>
              w'.elapsed == Elapsed.UpdateElapsed(w.elapsed, Accepted(o).value, format)
  {
    match Accepted(o)
    case None => w
    case Some(data) => Widget(Some(data), Elapsed.UpdateElapsed(w.elapsed, data, format))
  }

  /** The one-second refresh: recomputes the elapsed text from the current snapshot, if
      there is one, and never touches the snapshot. */
  function Tick(w: Widget, format: int -> string): (w': Widget)
    ensures w'.snapshot == w.snapshot
    ensures w.snapshot.None? ==> w' == w
    ensures w.snapshot.Some? ==>
              w'.elapsed == Elapsed.UpdateElapsed(w.elapsed, w.snapshot.value, format)
  {
    match w.snapshot
    case None => w
    case Some(data) => w.(elapsed := Elapsed.UpdateElapsed(w.elapsed, data, format))
  }

  /** An accepted poll is the same as storing the payload and then running the
      one-second refresh; and the refresh, run twice, is the refresh run once. */
  lemma PollIsStoreThenTick(w: Widget, o: FetchOutcome, format: int -> string)
    ensures Accepted(o).Some? ==>
              PollStep(w, o, format) == Tick(w.(snapshot := Accepted(o)), format)
    ensures Tick(Tick(w, format), format) == Tick(w, format)
  {
  }

  /** The state after a series of polls, taken in the order their responses settle.
      Polls come both from the 15-second timer and from the effect re-running (and
      fetching at once) after every accepted poll; any interleaving is one series. */
  function RunPolls(w: Widget, outcomes: seq<FetchOutcome>, format: int -> string): Widget
    decreases |outcomes|
  {
    if |outcomes| == 0 then w
    else RunPolls(PollStep(w, outcomes[0], format), outcomes[1..], format)
  }

  /** Outcome `i` is the last one in the series that was accepted. */
  ghost predicate IsLastAccepted(outcomes: seq<FetchOutcome>, i: int) {
    && 0 <= i < |outcomes|
    && Accepted(outcomes[i]).Some?
    && forall j :: i < j < |outcomes| ==> Accepted(outcomes[j]).None?
  }

  /** After a series of polls the widget shows the payload of the last accepted poll, or,
      when every poll failed, the snapshot it had before. */
  lemma {:induction false} LastGoodSnapshotWins(
    w: Widget, outcomes: seq<FetchOutcome>, format: int -> string)
    ensures forall i :: IsLastAccepted(outcomes, i) ==>
              RunPolls(w, outcomes, format).snapshot == Accepted(outcomes[i])
    ensures (forall j :: 0 <= j < |outcomes| ==> Accepted(outcomes[j]).None?) ==>
              RunPolls(w, outcomes, format) == w
    decreases |outcomes|
  {
    if |outcomes| > 0 {
      var w1 := PollStep(w, outcomes[0], format);
      var rest := outcomes[1..];
      LastGoodSnapshotWins(w1, rest, format);
      forall i | IsLastAccepted(outcomes, i)
        ensures RunPolls(w, outcomes, format).snapshot == Accepted(outcomes[i])
      {
        if i > 0 {
          assert IsLastAccepted(rest, i - 1);
        } else {
          assert forall j :: 0 <= j < |rest| ==> Accepted(rest[j]).None? by {
            forall j | 0 <= j < |rest|
              ensures Accepted(rest[j]).None?
            {
              assert rest[j] == outcomes[j + 1];
            }
          }
        }
      }
      if forall j :: 0 <= j < |outcomes| ==> Accepted(outcomes[j]).None? {
        assert Accepted(outcomes[0]).None?;
        assert forall j :: 0 <= j < |rest| ==> Accepted(rest[j]).None? by {
          forall j | 0 <= j < |rest|
            ensures Accepted(rest[j]).None?
          {
            assert rest[j] == outcomes[j + 1];
          }
        }
      }
    }
  }

  /** From the mounted state, the widget has no snapshot (and so shows the placeholder)
      exactly as long as no poll has been accepted. */
  lemma PlaceholderUntilFirstAccepted(outcomes: seq<FetchOutcome>, format: int -> string)
    ensures RunPolls(Initial, outcomes, format).snapshot.None? <==>
              forall j :: 0 <= j < |outcomes| ==> Accepted(outcomes[j]).None?
  {
    LastGoodSnapshotWins(Initial, outcomes, format);
    if exists k :: 0 <= k < |outcomes| && Accepted(outcomes[k]).Some? {
      var i := LastAcceptedIndex(outcomes);
      assert IsLastAccepted(outcomes, i);
    }
  }

  /** Once a snapshot has been shown, no sequence of polls takes it away again. */
  lemma SnapshotNeverLost(w: Widget, outcomes: seq<FetchOutcome>, format: int -> string)
    requires w.snapshot.Some?
    ensures RunPolls(w, outcomes, format).snapshot.Some?
  {
    LastGoodSnapshotWins(w, outcomes, format);
    if exists i :: 0 <= i < |outcomes| && Accepted(outcomes[i]).Some? {
      var i := LastAcceptedIndex(outcomes);
      assert IsLastAccepted(outcomes, i);
    }
  }

  /** The index of the last accepted outcome, when there is one. */
  function LastAcceptedIndex(outcomes: seq<FetchOutcome>): (i: nat)
    requires exists k :: 0 <= k < |outcomes| && Accepted(outcomes[k]).Some?
    ensures i < |outcomes| && Accepted(outcomes[i]).Some?
    ensures forall j :: i < j < |outcomes| ==> Accepted(outcomes[j]).None?
    decreases |outcomes|
  {
    var n := |outcomes| - 1;
    if Accepted(outcomes[n]).Some? then n
    else LastAcceptedIndex(outcomes[..n])
  }
}
