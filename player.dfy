/** The live-news player: the watch-time counter driven by the embedded player's state
    events, its one-second interval timer, channel switching, and the `HH:MM:SS` display. */
module Player {
  import opened Common
  import opened Strings
  import opened Decimal

  datatype Channel = Channel(title: string, videoId: string)

  /** The fixed channel list offered by the selector; the first is selected at start. */
  const NewsChannels: seq<Channel> := [
    Channel("LN+ EN VIVO | Últimas noticias de Argentina y el mundo", "G5pHuBCqgrs"),
    Channel("TN EN VIVO I SEGUÍ LA TRANSMISIÓN EN VIVO DE TODO NOTICIAS", "cb12KmMMDJA"),
    Channel("EN VIVO: Univision Noticias 24/7", "V4C7VNfRATA"),
    Channel("🔴 DW Español | En vivo", "Io5mt83nCcU"),
    Channel("euronews en directo", "O9mOtdZ-nSk"),
    Channel("FRANCE 24 Español – EN VIVO", "Y-IlMeCCtIg")
  ]

  /** `channels.find(c => c.videoId === videoId)`: the first channel with that id, if any. */
  function FindChannel(channels: seq<Channel>, videoId: string): (r: Option<Channel>)
    ensures r.Some? ==> r.value in channels && r.value.videoId == videoId
    ensures r.None? <==> forall i | 0 <= i < |channels| :: channels[i].videoId != videoId
    ensures r.Some? ==> exists k | 0 <= k < |channels| :: channels[k] == r.value &&
                          forall i | 0 <= i < k :: channels[i].videoId != videoId
    decreases |channels|
  {
    if channels == [] then None
    else if channels[0].videoId == videoId then Some(channels[0])
    else
      var r := FindChannel(channels[1..], videoId);
      assert forall i | 1 <= i < |channels| :: channels[i] == channels[1..][i - 1];
      r
  }

  /** The six video ids are distinct, so the channel found for an id is the only one with it. */
  lemma ChannelIdsDistinct()
    ensures forall i, j | 0 <= i < j < |NewsChannels| :: NewsChannels[i].videoId != NewsChannels[j].videoId
  {
  }

  // ----- formatTime -----

  /** Hours, minutes and seconds of a count of seconds, as `Math.floor` and `%` compute them. */
  function TimeParts(seconds: nat): (r: (nat, nat, nat))
    ensures r.1 < 60 && r.2 < 60
    ensures r.0 * 3600 + r.1 * 60 + r.2 == seconds
  {
    var hrs := seconds / 3600;
    var mins := (seconds % 3600) / 60;
    var secs := seconds % 60;
    assert seconds % 60 == (seconds % 3600) % 60 by {
      assert seconds == 3600 * hrs + seconds % 3600;
      assert 3600 * hrs == 60 * (60 * hrs);
    }
    (hrs, mins, secs)
  }

  function Pad2(n: nat): string {
    PadStart(DecimalDigits(n), 2, '0')
  }

  /** The watch-time display: the three fields, each at least two digits, joined by `:`. */
  function FormatTime(seconds: nat): string {
    var (hrs, mins, secs) := TimeParts(seconds);
    JoinWith([Pad2(hrs), Pad2(mins), Pad2(secs)], ':')
  }

  /** Reference reading of a clock display `H:M:S` back into seconds. */
  function ParseClock(s: string): Option<nat> {
    ClockValue(SplitOn(s, ':'))
  }

  /** The seconds denoted by three non-empty digit fields, hours first. */
  function ClockValue(f: seq<string>): Option<nat> {
    if |f| == 3 && f[0] != [] && f[1] != [] && f[2] != []
       && IsDigits(f[0]) && IsDigits(f[1]) && IsDigits(f[2])
    then Some(DecimalValue(f[0]) * 3600 + DecimalValue(f[1]) * 60 + DecimalValue(f[2]))
    else None
  }

  lemma Pad2Facts(n: nat)
    ensures |Pad2(n)| >= 2 && IsDigits(Pad2(n)) && ':' !in Pad2(n)
    ensures DecimalValue(Pad2(n)) == n
    ensures |Pad2(n)| == 2 <==> n < 100
  {
    ZeroPadValue(DecimalDigits(n), 2);
    DecimalRoundTrip(n);
    TwoDigitsBelowHundred(n);
    var p := Pad2(n);
    assert forall i | 0 <= i < |p| :: p[i] != ':' by {
      assert forall i | 0 <= i < |p| :: IsDigit(p[i]);
    }
  }

  lemma JoinThree(a: string, b: string, c: string, sep: char)
    ensures JoinWith([a, b, c], sep) == a + [sep] + b + [sep] + c
  {
    assert [a, b, c][1..] == [b, c];
    assert [b, c][1..] == [c];
    assert JoinWith([b, c], sep) == b + [sep] + c;
    assert JoinWith([a, b, c], sep) == a + [sep] + (b + [sep] + c);
  }

  /** The display is three colon-separated fields of two or more digits, and reading it back
      gives the original number of seconds. */
  lemma FormatTimeRoundTrip(seconds: nat)
    ensures |SplitOn(FormatTime(seconds), ':')| == 3
    ensures forall i | 0 <= i < 3 :: |SplitOn(FormatTime(seconds), ':')[i]| >= 2
    ensures ParseClock(FormatTime(seconds)) == Some(seconds)
  {
    var t := TimeParts(seconds);
    var a, b, c := Pad2(t.0), Pad2(t.1), Pad2(t.2);
    Pad2Field(t.0);
    Pad2Field(t.1);
    Pad2Field(t.2);
    assert FormatTime(seconds) == JoinWith([a, b, c], ':');
    SplitThree(a, b, c, ':');
    ParseFields(FormatTime(seconds), a, b, c, t.0, t.1, t.2, seconds);
  }

  /** `p` is a display field of two or more digits showing `n`. */
  ghost predicate ClockField(p: string, n: nat) {
    |p| >= 2 && IsDigits(p) && DecimalValue(p) == n
  }

  lemma Pad2Field(n: nat)
    ensures ClockField(Pad2(n), n) && ':' !in Pad2(n)
  {
    Pad2Facts(n);
  }

  lemma SplitThree(a: string, b: string, c: string, sep: char)
    requires sep !in a && sep !in b && sep !in c
    ensures SplitOn(JoinWith([a, b, c], sep), sep) == [a, b, c]
  {
    var parts := [a, b, c];
    assert forall i | 0 <= i < 3 :: sep !in parts[i];
    SplitJoin(parts, sep);
  }

  /** Text whose colon-separated fields are three display fields reads back as the seconds
      they denote. */
  lemma ParseFields(r: string, a: string, b: string, c: string, h: nat, m: nat, s: nat, seconds: nat)
    requires SplitOn(r, ':') == [a, b, c]
    requires ClockField(a, h) && ClockField(b, m) && ClockField(c, s)
    requires h * 3600 + m * 60 + s == seconds
    ensures |SplitOn(r, ':')| == 3
    ensures forall i | 0 <= i < 3 :: |SplitOn(r, ':')[i]| >= 2
    ensures ParseClock(r) == Some(seconds)
  {
    ClockValueOf([a, b, c], h, m, s);
  }

  lemma ClockValueOf(f: seq<string>, h: nat, m: nat, s: nat)
    requires |f| == 3 && ClockField(f[0], h) && ClockField(f[1], m) && ClockField(f[2], s)
    ensures ClockValue(f) == Some(h * 3600 + m * 60 + s)
  {
  }

  /** The display is exactly eight characters `HH:MM:SS` iff fewer than 100 hours are shown. */
  lemma FormatTimeLength(seconds: nat)
    ensures |FormatTime(seconds)| == 8 <==> seconds < 360000
    ensures seconds < 360000 ==> FormatTime(seconds)[2] == ':' && FormatTime(seconds)[5] == ':'
  {
    var (h, m, s) := TimeParts(seconds);
    Pad2Facts(h);
    Pad2Facts(m);
    Pad2Facts(s);
    var r := FormatTime(seconds);
    JoinThree(Pad2(h), Pad2(m), Pad2(s), ':');
    assert r == Pad2(h) + [':'] + Pad2(m) + [':'] + Pad2(s);
    assert h < 100 <==> seconds < 360000;
  }

  // ----- the session -----

  /** What the session asks of the embedded player; the player's reaction arrives later
      as a state event. */
  datatype PlayerRequest = CreatePlayer(videoId: string) | PlayVideo | PauseVideo | LoadVideoById(videoId: string)

  /** All fields of a session at one moment, so that contracts can say "nothing else changes". */
  datatype SessionState = SessionState(
    isPlaying: bool,
    isBuffering: bool,
    time: nat,
    intervalId: Option<nat>,
    selectedChannel: Channel,
    hasPlayer: bool,
    intervals: set<nat>,
    nextHandle: nat,
    requests: seq<PlayerRequest>)

  /** The state after switching to channel `c`: `c` selected, buffering shown, no interval,
      and a load request when a player exists; the counter and play flag are kept. */
  function SwitchedTo(s: SessionState, c: Channel): (r: SessionState)
    ensures r.time == s.time && r.isPlaying == s.isPlaying
    ensures r.selectedChannel == c && r.isBuffering && r.intervals == {} && r.intervalId.None?
  {
    s.(selectedChannel := c, isBuffering := true, intervals := {}, intervalId := None,
       requests := if s.hasPlayer then s.requests + [LoadVideoById(c.videoId)] else s.requests)
  }

  class Session {
    /** The channels offered by the selector (`NewsChannels`). */
    const channels: seq<Channel>
    var isPlaying: bool
    var isBuffering: bool
    /** Seconds watched, shown as `FormatTime(time)`. */
    var time: nat
    /** The handle of the interval this session started; `None` is JavaScript's `null`. */
    var intervalId: Option<nat>
    var selectedChannel: Channel
    /** Whether the embedded player exists (`playerRef.current` is set). */
    var hasPlayer: bool
    /** The intervals registered with the window; a registered interval keeps firing ticks. */
    var intervals: set<nat>
    /** The handle `setInterval` returns next; browsers hand out positive, increasing handles. */
    var nextHandle: nat
    /** Requests sent to the embedded player, oldest first. */
    var requests: seq<PlayerRequest>

    function State(): SessionState
      reads this
    {
      SessionState(isPlaying, isBuffering, time, intervalId, selectedChannel, hasPlayer,
                   intervals, nextHandle, requests)
    }

    /** The registered intervals are exactly the one the session holds, if any. */
    ghost predicate Valid()
      reads this
    {
      && (intervalId.None? ==> intervals == {})
      && (intervalId.Some? ==> intervals == {intervalId.value} && 0 < intervalId.value < nextHandle)
      && 0 < nextHandle
      && selectedChannel in channels
    }

    /** At most one interval is ever running. */
    ghost predicate AtMostOneTimer()
      reads this
    {
      |intervals| <= 1
    }

    constructor ()
      ensures Valid() && AtMostOneTimer()
      ensures channels == NewsChannels
      ensures State() == SessionState(false, false, 0, None, NewsChannels[0], false, {}, 1, [])
    {
      channels := NewsChannels;
      isPlaying, isBuffering, time, intervalId := false, false, 0, None;
      selectedChannel, hasPlayer := NewsChannels[0], false;
      intervals, nextHandle, requests := {}, 1, [];
    }

    /** The YouTube API became ready and built the player on the selected channel. */
    method Create()
      requires Valid()
      modifies this
      ensures Valid() && AtMostOneTimer()
      ensures State() == old(State()).(hasPlayer := true,
                                       requests := old(requests) + [CreatePlayer(old(selectedChannel).videoId)])
    {
      hasPlayer := true;
      requests := requests + [CreatePlayer(selectedChannel.videoId)];
    }

    /** Clears any running interval, then registers a new one and keeps its handle. */
    method StartTimer()
      requires Valid()
      modifies this
      ensures Valid() && AtMostOneTimer()
      ensures State() == old(State()).(intervals := {old(nextHandle)},
                                       intervalId := Some(old(nextHandle)),
                                       nextHandle := old(nextHandle) + 1)
    {
      if intervalId.Some? {
        intervals := intervals - {intervalId.value};
      }
      var id := nextHandle;
      nextHandle := nextHandle + 1;
      intervals := intervals + {id};
      intervalId := Some(id);
    }

    /** Clears the running interval, if there is one, and forgets its handle. */
    method StopTimer()
      requires Valid()
      modifies this
      ensures Valid() && AtMostOneTimer()
      ensures intervals == {} && intervalId == None
      ensures State() == old(State()).(intervals := {}, intervalId := None)
      ensures old(intervalId).None? ==> State() == old(State())
    {
      if intervalId.Some? {
        intervals := intervals - {intervalId.value};
        intervalId := None;
      }
    }

    /** One firing of a registered interval: one more second watched, nothing else. */
    method Tick(handle: nat)
      requires Valid() && handle in intervals
      modifies this`time
      ensures Valid() && AtMostOneTimer()
      ensures State() == old(State()).(time := old(time) + 1)
    {
      time := time + 1;
    }

    /** The player reports state `code`: 1 playing, 2 paused, 3 buffering, anything else. */
    method OnPlayerStateChange(code: int)
      requires Valid()
      modifies this
      ensures Valid() && AtMostOneTimer()
      ensures code == 1 ==> State() == old(State()).(isBuffering := false, isPlaying := true,
                                                     intervals := {old(nextHandle)},
                                                     intervalId := Some(old(nextHandle)),
                                                     nextHandle := old(nextHandle) + 1)
      ensures code == 2 ==> State() == old(State()).(isBuffering := false, isPlaying := false,
                                                     intervals := {}, intervalId := None)
      ensures code == 3 ==> State() == old(State()).(isBuffering := true,
                                                     intervals := {}, intervalId := None)
      ensures code !in {1, 2, 3} ==> State() == old(State()).(isBuffering := false)
    {
      if code == 1 {
        isBuffering := false;
        StartTimer();
        isPlaying := true;
      } else if code == 2 {
        isBuffering := false;
        StopTimer();
        isPlaying := false;
      } else if code == 3 {
        isBuffering := true;
        StopTimer();
      } else {
        isBuffering := false;
      }
    }

    /** The selector picked `videoId`, one of the listed channels: select it, show buffering,
        stop counting, and ask the player to load it. The counter is not reset. */
    method HandleChannelChange(videoId: string)
      requires Valid()
      requires FindChannel(channels, videoId).Some?
      modifies this
      ensures Valid() && AtMostOneTimer()
      ensures selectedChannel.videoId == videoId
      ensures State() == SwitchedTo(old(State()), FindChannel(channels, videoId).value)
    {
      var newChannel := FindChannel(channels, videoId).value;
      selectedChannel := newChannel;
      isBuffering := true;
      StopTimer();
      if hasPlayer {
        requests := requests + [LoadVideoById(newChannel.videoId)];
      }
    }

    /** The play/pause button. Without a player it does nothing; when not playing it only asks
        the player to play (the state event then starts the timer); when playing it asks the
        player to pause, stops the timer and shows paused at once. */
    method TogglePlayPause()
      requires Valid()
      modifies this
      ensures Valid() && AtMostOneTimer()
      ensures !old(hasPlayer) ==> State() == old(State())
      ensures old(hasPlayer) && !old(isPlaying) ==>
                State() == old(State()).(requests := old(requests) + [PlayVideo])
      ensures old(hasPlayer) && old(isPlaying) ==>
                State() == old(State()).(requests := old(requests) + [PauseVideo],
                                         intervals := {}, intervalId := None, isPlaying := false)
    {
      if !hasPlayer {
        return;
      }
      if !isPlaying {
        requests := requests + [PlayVideo];
      } else {
        requests := requests + [PauseVideo];
        StopTimer();
        isPlaying := false;
      }
    }

    /** Unmounting clears the running interval; the session is then discarded. */
    method Unmount()
      requires Valid()
      modifies this`intervals
      ensures intervals == {}
      ensures State() == old(State()).(intervals := {})
    {
      if intervalId.Some? {
        intervals := intervals - {intervalId.value};
      }
    }
  }
}
