/**
 The widget's asset-reference normaliser (`formatImageUrl`).

 A reference is classified by prefix, in this order: absent or empty, `http`,
 `mp:external`, `spotify:`, anything else. The `mp:external` branch returns the
 leftmost match of the regular expression /https?:\/\/[^/]+(\/.*)/ in the reference.
 That match is modelled by `Span` and `IsMatch`, and `FindMatch` is a search that is
 proved to return exactly the leftmost match.
 */
module ImageUrl {
  import opened Lanyard

  const SpotifyPrefix := "spotify:"
  const ExternalPrefix := "mp:external"
  const AbsolutePrefix := "http"
  const SpotifyImageBase := "https://i.scdn.co/image/"
  const AppAssetsBase := "https://cdn.discordapp.com/app-assets/"

  predicate StartsWith(s: string, prefix: string) {
    |prefix| <= |s| && s[..|prefix|] == prefix
  }

  /** The ECMAScript line terminators: the only characters `.` does not match. */
  predicate IsLineTerminator(c: char) {
    c == '\n' || c == '\r' || c == '\U{2028}' || c == '\U{2029}'
  }

  /** A match of /https?:\/\/[^/]+(\/.*)/ inside a string, by its boundaries:
      `[start, hostStart)` is "http://" or "https://", `[hostStart, slash)` the host,
      `slash` the '/' that opens the captured path, `[slash + 1, end)` the rest of the line. */
  datatype Span = Span(start: nat, hostStart: nat, slash: nat, end: nat)

  /** `m` is the match the regular expression produces when it is tried at `m.start`:
      the host is the maximal run of non-'/' characters (it must be followed by '/'), and
      the greedy `.*` stops only at a line terminator or at the end of the input. */
  predicate IsMatch(s: string, m: Span) {
    && m.start < m.hostStart < m.slash < m.end <= |s|
    && (s[m.start..m.hostStart] == "http://" || s[m.start..m.hostStart] == "https://")
    && (forall t :: m.hostStart <= t < m.slash ==> s[t] != '/')
    && s[m.slash] == '/'
    && (forall t :: m.slash < t < m.end ==> !IsLineTerminator(s[t]))
    && (m.end == |s| || IsLineTerminator(s[m.end]))
  }

  /** The matched text. */
  function Text(s: string, m: Span): string
    requires IsMatch(s, m)
  {
    s[m.start..m.end]
  }

  /** Index of the first '/' at or after `i`, or `|s|` when there is none. */
  function NextSlash(s: string, i: nat): (k: nat)
    requires i <= |s|
    ensures i <= k <= |s|
    ensures forall t :: i <= t < k ==> s[t] != '/'
    ensures k < |s| ==> s[k] == '/'
    decreases |s| - i
  {
    if i == |s| || s[i] == '/' then i else NextSlash(s, i + 1)
  }

  /** Index of the first line terminator at or after `i`, or `|s|` when there is none. */
  function LineEnd(s: string, i: nat): (k: nat)
    requires i <= |s|
    ensures i <= k <= |s|
    ensures forall t :: i <= t < k ==> !IsLineTerminator(s[t])
    ensures k < |s| ==> IsLineTerminator(s[k])
    decreases |s| - i
  {
    if i == |s| || IsLineTerminator(s[i]) then i else LineEnd(s, i + 1)
  }

  /** Where the host begins when the scheme "https://" or "http://" sits at `i`
      (`https?` is greedy, and the two schemes cannot both sit at one index). */
  function HostStart(s: string, i: nat): (h: Option<nat>)
    requires i <= |s|
    ensures h.Some? ==> i < h.value <= |s|
                        && (s[i..h.value] == "http://" || s[i..h.value] == "https://")
    ensures h.None? ==> forall k :: i < k <= |s| ==> s[i..k] != "http://" && s[i..k] != "https://"
  {
    if i + 8 <= |s| && s[i..i + 8] == "https://" then Some(i + 8)
    else if i + 7 <= |s| && s[i..i + 7] == "http://" then Some(i + 7)
    else None
  }

  /** The match tried at index `i`, if the regular expression matches there. */
  function MatchAt(s: string, i: nat): (r: Option<Span>)
    requires i <= |s|
    ensures r.Some? ==> r.value.start == i && IsMatch(s, r.value)
  {
    match HostStart(s, i)
    case None => None
    case Some(h) =>
      var k := NextSlash(s, h);
      if k == h || k == |s| then None
      else Some(Span(i, h, k, LineEnd(s, k + 1)))
  }

  /** The leftmost match starting at or after `i`. */
  function FindMatch(s: string, i: nat): (r: Option<Span>)
    requires i <= |s|
    ensures r.Some? ==> i <= r.value.start && IsMatch(s, r.value)
    decreases |s| - i
  {
    if i == |s| then None
    else
      match MatchAt(s, i)
      case Some(m) => Some(m)
      case None => FindMatch(s, i + 1)
  }

  /** The `mp:external` branch: the whole match (`matches[0]`), or "" without one. */
  function ExternalUrl(s: string): string {
    match FindMatch(s, 0)
    case None => ""
    case Some(m) => Text(s, m)
  }

  /** `formatImageUrl`: the URL the widget loads for an asset reference. */
  function FormatImageUrl(reference: Option<string>): (r: string)
    ensures reference.None? || reference == Some("") ==> r == ""
    ensures reference.Some? && StartsWith(reference.value, AbsolutePrefix) ==> r == reference.value
    ensures reference.Some? && StartsWith(reference.value, ExternalPrefix)
            ==> r == ExternalUrl(reference.value)
    ensures reference.Some? && StartsWith(reference.value, SpotifyPrefix)
            ==> r == SpotifyImageBase + reference.value[|SpotifyPrefix|..]
    ensures reference.Some? && reference.value != ""
            && !StartsWith(reference.value, AbsolutePrefix)
            && !StartsWith(reference.value, ExternalPrefix)
            && !StartsWith(reference.value, SpotifyPrefix)
            ==> r == AppAssetsBase + reference.value
  {
    match reference
    case None => ""
    case Some(s) =>
      PrefixesExclusive(s);
      if s == "" then ""
      else if StartsWith(s, AbsolutePrefix) then s
      else if StartsWith(s, ExternalPrefix) then ExternalUrl(s)
      else if StartsWith(s, SpotifyPrefix) then SpotifyImageBase + s[|SpotifyPrefix|..]
      else AppAssetsBase + s
  }

  // ---------------------------------------------------------------------------
  // The regular-expression model

  /** At one start index the regular expression has at most one match. */
  lemma MatchUnique(s: string, m: Span, n: Span)
    requires IsMatch(s, m) && IsMatch(s, n) && m.start == n.start
    ensures m == n
  {
    // "http://" and "https://" disagree at index 4 (':' against 's').
    assert s[m.start..m.hostStart][4] == s[m.start + 4] == s[n.start..n.hostStart][4];
    assert m.hostStart == n.hostStart;
    assert m.slash == n.slash;
  }

  /** `MatchAt` misses no match: when it reports none, none starts at `i`. */
  lemma MatchAtComplete(s: string, i: nat, m: Span)
    requires i <= |s| && IsMatch(s, m) && m.start == i
    ensures MatchAt(s, i) == Some(m)
  {
    var h := HostStart(s, i);
    assert h.Some?;
    assert s[i..m.hostStart][4] == s[i + 4] == s[i..h.value][4];
    assert h.value == m.hostStart;
    assert NextSlash(s, m.hostStart) == m.slash;
    assert LineEnd(s, m.slash + 1) == m.end;
  }

  /** `FindMatch` returns the leftmost match at or after `i`, and reports none only
      when there is none. */
  lemma {:induction false} FindMatchLeftmost(s: string, i: nat)
    requires i <= |s|
    ensures FindMatch(s, i).Some? ==>
              forall m :: IsMatch(s, m) && i <= m.start ==> FindMatch(s, i).value.start <= m.start
    ensures FindMatch(s, i).None? <==> forall m: Span :: i <= m.start ==> !IsMatch(s, m)
    decreases |s| - i
  {
    if i == |s| {
      forall m: Span | i <= m.start
        ensures !IsMatch(s, m)
      {
      }
    } else {
      FindMatchLeftmost(s, i + 1);
      if MatchAt(s, i).None? {
        forall m | IsMatch(s, m) && m.start == i
          ensures false
        {
          MatchAtComplete(s, i, m);
        }
      }
    }
  }

  // ---------------------------------------------------------------------------
  // Properties of formatImageUrl

  /** The `mp:external` branch yields "" exactly when the reference holds no match, and
      otherwise the text of its leftmost match. */
  lemma ExternalBranch(s: string)
    requires StartsWith(s, ExternalPrefix)
    ensures FormatImageUrl(Some(s)) == "" <==> forall m :: !IsMatch(s, m)
    ensures FormatImageUrl(Some(s)) != "" ==>
              exists m :: IsMatch(s, m) && FormatImageUrl(Some(s)) == Text(s, m)
                          && forall n :: IsMatch(s, n) ==> m.start <= n.start
  {
    assert !StartsWith(s, AbsolutePrefix) by { assert s[0] == s[..|ExternalPrefix|][0]; }
    FindMatchLeftmost(s, 0);
    var r := FindMatch(s, 0);
    if r.Some? {
      var m := r.value;
      assert Text(s, m)[0] == s[m.start];
      assert s[m.start] == s[m.start..m.hostStart][0];
    }
  }

  /** A URL as the regular expression sees one: "http://" or "https://", a non-empty
      host free of '/', then a '/'. */
  predicate UrlShaped(r: string) {
    var w := if StartsWith(r, "https://") then 8 else 7;
    && (StartsWith(r, "http://") || StartsWith(r, "https://"))
    && w < |r| && r[w] != '/'
    && '/' in r[w..]
  }

  predicate NoLineTerminator(s: string) {
    forall t :: 0 <= t < |s| ==> !IsLineTerminator(s[t])
  }

  /** The text of every match is URL-shaped. */
  lemma MatchTextShaped(s: string, m: Span)
    requires IsMatch(s, m)
    ensures UrlShaped(Text(s, m))
  {
    var r := Text(s, m);
    var w := m.hostStart - m.start;
    assert r[..w] == s[m.start..m.hostStart];
    assert w == 7 || w == 8;
    if w == 8 {
      assert r[..8] == "https://";
    } else {
      assert r[..7] == "http://";
      assert r[4] == ':';
      assert !StartsWith(r, "https://");
    }
    assert r[w] == s[m.hostStart];
    assert r[w..][m.slash - m.hostStart] == s[m.slash];
  }

  /** A non-empty `mp:external` result is URL-shaped, and it runs to the end of the
      input unless a line terminator cuts it short. */
  lemma ExternalUrlShape(s: string)
    requires ExternalUrl(s) != ""
    ensures UrlShaped(ExternalUrl(s))
    ensures NoLineTerminator(s) ==> ExternalUrl(s) == s[|s| - |ExternalUrl(s)|..]
  {
    var m := FindMatch(s, 0).value;
    MatchTextShaped(s, m);
    if NoLineTerminator(s) {
      assert m.end == |s|;
    }
  }

  /** Prepending one of the widget's CDN bases yields an absolute URL. */
  lemma BaseIsAbsolute(base: string, tail: string)
    requires base == SpotifyImageBase || base == AppAssetsBase
    ensures StartsWith(base + tail, AbsolutePrefix)
  {
    assert base[..4] == AbsolutePrefix by {
      assert base[0] == 'h' && base[1] == 't' && base[2] == 't' && base[3] == 'p';
    }
    assert (base + tail)[..4] == base[..4];
  }

  /** A non-empty `mp:external` result is an absolute URL. */
  lemma ExternalIsAbsolute(s: string)
    requires ExternalUrl(s) != ""
    ensures StartsWith(ExternalUrl(s), AbsolutePrefix)
  {
    ExternalUrlShape(s);
    var r := ExternalUrl(s);
    assert r[..4] == r[..7][..4];
  }

  /** Every result is empty or an absolute URL. */
  lemma FormatIsAbsolute(reference: Option<string>)
    ensures FormatImageUrl(reference) == "" || StartsWith(FormatImageUrl(reference), AbsolutePrefix)
  {
    if reference.Some? && reference.value != "" {
      var s := reference.value;
      PrefixesExclusive(s);
      if StartsWith(s, AbsolutePrefix) {
      } else if StartsWith(s, ExternalPrefix) {
        if ExternalUrl(s) != "" {
          ExternalIsAbsolute(s);
        }
      } else if StartsWith(s, SpotifyPrefix) {
        BaseIsAbsolute(SpotifyImageBase, s[|SpotifyPrefix|..]);
      } else {
        BaseIsAbsolute(AppAssetsBase, s);
      }
    }
  }

  /** Normalising a normalised URL changes nothing. */
  lemma FormatIdempotent(reference: Option<string>)
    ensures FormatImageUrl(Some(FormatImageUrl(reference))) == FormatImageUrl(reference)
  {
    FormatIsAbsolute(reference);
  }

  /** The prefixes "http", "mp:external" and "spotify:" exclude one another (they differ
      in their first character), so the order of the prefix checks decides nothing
      among them. */
  lemma PrefixesExclusive(s: string)
    ensures !(StartsWith(s, AbsolutePrefix) && StartsWith(s, ExternalPrefix))
    ensures !(StartsWith(s, AbsolutePrefix) && StartsWith(s, SpotifyPrefix))
    ensures !(StartsWith(s, ExternalPrefix) && StartsWith(s, SpotifyPrefix))
  {
    if |s| > 0 {
      if StartsWith(s, AbsolutePrefix) { assert s[0] == s[..4][0] == 'h'; }
      if StartsWith(s, ExternalPrefix) { assert s[0] == s[..11][0] == 'm'; }
      if StartsWith(s, SpotifyPrefix) { assert s[0] == s[..8][0] == 's'; }
    }
  }

  /** The Spotify branch keeps the remainder after "spotify:" verbatim: stripping the
      image base from the result gives it back. */
  lemma SpotifyRemainderKept(s: string)
    requires StartsWith(s, SpotifyPrefix)
    ensures StartsWith(FormatImageUrl(Some(s)), SpotifyImageBase)
    ensures FormatImageUrl(Some(s))[|SpotifyImageBase|..] == s[8..]
  {
    PrefixesExclusive(s);
    var r := FormatImageUrl(Some(s));
    assert r == SpotifyImageBase + s[8..];
    assert r[..|SpotifyImageBase|] == SpotifyImageBase;
  }

  /** The app-asset fallback loses nothing: distinct references give distinct URLs. */
  lemma AppAssetInjective(a: string, b: string)
    requires a != "" && b != ""
    requires !StartsWith(a, AbsolutePrefix) && !StartsWith(a, ExternalPrefix) && !StartsWith(a, SpotifyPrefix)
    requires !StartsWith(b, AbsolutePrefix) && !StartsWith(b, ExternalPrefix) && !StartsWith(b, SpotifyPrefix)
    requires FormatImageUrl(Some(a)) == FormatImageUrl(Some(b))
    ensures a == b
  {
    assert (AppAssetsBase + a)[|AppAssetsBase|..] == a;
    assert (AppAssetsBase + b)[|AppAssetsBase|..] == b;
  }

  /** "://" occurs in `s` at index `t`. */
  predicate SeparatorAt(s: string, t: int) {
    0 <= t && t + 3 <= |s| && s[t] == ':' && s[t + 1] == '/' && s[t + 2] == '/'
  }

  /** A reference in which "://" never occurs holds no match, so its `mp:external` form
      normalises to the empty string (as "mp:external/k/https/a.io/b.png" does). */
  lemma ExternalNeedsSchemeSeparator(s: string)
    requires StartsWith(s, ExternalPrefix)
    requires forall t :: !SeparatorAt(s, t)
    ensures FormatImageUrl(Some(s)) == ""
  {
    forall n: Span | IsMatch(s, n)
      ensures false
    {
      var w := n.hostStart - n.start;
      assert s[n.start..n.hostStart][w - 3] == s[n.hostStart - 3];
      assert s[n.start..n.hostStart][w - 2] == s[n.hostStart - 2];
      assert s[n.start..n.hostStart][w - 1] == s[n.hostStart - 1];
      assert SeparatorAt(s, n.hostStart - 3);
    }
    ExternalBranch(s);
  }
}
