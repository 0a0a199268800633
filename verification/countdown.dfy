/** The voting-window countdown of the main page (src/pages/MainPage.tsx):
    the clamp applied on every one-second tick and `formatTime`, which
    prints a millisecond count as h:mm:ss. The clock and the interval timer
    are parameters: `now` is the time a tick runs at. */
module Countdown {
  import opened Types
  import opened Decimal

  /** The window the page opens on mount: one hour, in milliseconds. */
  const SessionLength: nat := 3600 * 1000

  /** What a tick stores as the remaining time, and whether it clears the interval. */
  datatype Tick = Tick(remaining: nat, stop: bool)

  /** The fields `formatTime` prints. */
  datatype ClockFace = ClockFace(hours: nat, minutes: nat, seconds: nat)

  /** One run of the interval callback at time `now`: past the end it stores
      zero and stops the timer, otherwise it stores the time still to go. */
  function OnTick(voteEnd: int, now: int): (t: Tick)
    ensures t.stop <==> voteEnd <= now
    ensures t.stop <==> t.remaining == 0
    ensures !t.stop ==> now + t.remaining == voteEnd
  {
    var timeLeft := voteEnd - now;
    if timeLeft <= 0 then Tick(0, true) else Tick(timeLeft, false)
  }

  /** Later ticks never show more time, and once the timer has stopped
      every later tick would stop it too. */
  lemma CountdownNeverIncreases(voteEnd: int, earlier: int, later: int)
    requires earlier <= later
    ensures OnTick(voteEnd, later).remaining <= OnTick(voteEnd, earlier).remaining
    ensures OnTick(voteEnd, earlier).stop ==> OnTick(voteEnd, later).stop
  {
  }

  /** The three fields of `formatTime` for a whole number of milliseconds.
      For such input `Math.floor((t / X) % n)` equals `(t / X) % n` in
      integer arithmetic. */
  function Clock(t: nat): (c: ClockFace)
    ensures c.hours < 24 && c.minutes < 60 && c.seconds < 60
  {
    ClockFace((t / (1000 * 60 * 60)) % 24, (t / (1000 * 60)) % 60, (t / 1000) % 60)
  }

  lemma MinutesOfSeconds(t: nat)
    ensures t / 60000 == (t / 1000) / 60
  {
    var q := (t / 1000) / 60;
    assert t == 60000 * q + (1000 * ((t / 1000) % 60) + t % 1000);
  }

  lemma HoursOfMinutes(t: nat)
    ensures t / 3600000 == (t / 60000) / 60
  {
    var q := (t / 60000) / 60;
    assert t == 3600000 * q + (60000 * ((t / 60000) % 60) + t % 60000);
  }

  /** The fields are the whole seconds of `t`, taken modulo one day, split
      into hours, minutes and seconds. */
  lemma ClockDenotes(t: nat)
    ensures var c := Clock(t);
      c.hours * 3600 + c.minutes * 60 + c.seconds == (t / 1000) % 86400
  {
    MinutesOfSeconds(t);
    HoursOfMinutes(t);
    var s := t / 1000;
    var m := s / 60;
    var h := m / 60;
    assert s == 86400 * (h / 24) + ((h % 24) * 3600 + (m % 60) * 60 + s % 60);
  }

  /** `n.toString()` for an hour count: one or two digits that read back as `n`. */
  function HourText(n: nat): (s: string)
    requires n < 24
    ensures 1 <= |s| <= 2 && AllDigits(s) && Read(s) == n
    ensures |s| == 1 <==> n < 10
  {
    ReadShow(n);
    Show(n)
  }

  /** `n.toString().padStart(2, "0")` for a minute or second count: exactly
      two digits that read back as `n`. */
  function TwoDigits(n: nat): (s: string)
    requires n < 60
    ensures |s| == 2 && AllDigits(s) && Read(s) == n
  {
    ReadShow(n);
    ReadPadStart2(Show(n));
    PadStart2(Show(n))
  }

  /** Where the fields sit in "h:mm:ss" when the hours take one or two
      characters and the other fields two. */
  lemma {:induction false} FieldsOfJoin(h: string, m: string, sec: string)
    requires 1 <= |h| <= 2 && |m| == 2 && |sec| == 2
    ensures var s := h + ":" + m + ":" + sec;
      && 7 <= |s| <= 8
      && s[|s| - 6] == ':' && s[|s| - 3] == ':'
      && s[..|s| - 6] == h && s[|s| - 5..|s| - 3] == m && s[|s| - 2..] == sec
  {
  }

  /** Hours unpadded, minutes and seconds padded to two digits. */
  function FaceText(c: ClockFace): (s: string)
    requires c.hours < 24 && c.minutes < 60 && c.seconds < 60
    ensures 7 <= |s| <= 8
    ensures s[|s| - 6] == ':' && s[|s| - 3] == ':'
    ensures |s| == 7 <==> c.hours < 10
  {
    var h := HourText(c.hours);
    var m := TwoDigits(c.minutes);
    var sec := TwoDigits(c.seconds);
    FieldsOfJoin(h, m, sec);
    var s := h + ":" + m + ":" + sec;
    s
  }

  /** `formatTime`. */
  function FormatTime(t: nat): (s: string)
    ensures 7 <= |s| <= 8
    ensures s[|s| - 6] == ':' && s[|s| - 3] == ':'
    ensures |s| == 7 <==> Clock(t).hours < 10
  {
    var c := Clock(t);
    FaceText(c)
  }

  /** Reads an h:mm:ss string back into its fields. */
  function ParseTime(s: string): Option<ClockFace> {
    if |s| >= 7 && s[|s| - 6] == ':' && s[|s| - 3] == ':'
       && AllDigits(s[..|s| - 6]) && AllDigits(s[|s| - 5..|s| - 3]) && AllDigits(s[|s| - 2..])
    then Some(ClockFace(Read(s[..|s| - 6]), Read(s[|s| - 5..|s| - 3]), Read(s[|s| - 2..])))
    else None
  }

  lemma FaceTextRoundTrip(c: ClockFace)
    requires c.hours < 24 && c.minutes < 60 && c.seconds < 60
    ensures ParseTime(FaceText(c)) == Some(c)
  {
    var h, m, sec := HourText(c.hours), TwoDigits(c.minutes), TwoDigits(c.seconds);
    FieldsOfJoin(h, m, sec);
    var s := h + ":" + m + ":" + sec;
    assert FaceText(c) == s;
    assert s[..|s| - 6] == h && s[|s| - 5..|s| - 3] == m && s[|s| - 2..] == sec;
  }

  /** The printed time can be read back into exactly the fields it shows. */
  lemma FormatTimeRoundTrip(t: nat)
    ensures ParseTime(FormatTime(t)) == Some(Clock(t))
  {
    FaceTextRoundTrip(Clock(t));
  }

  /** A face is recovered from the second of the day it denotes. */
  lemma FaceOfSeconds(c: ClockFace)
    requires c.hours < 24 && c.minutes < 60 && c.seconds < 60
    ensures var n := c.hours * 3600 + c.minutes * 60 + c.seconds;
      c.hours == n / 3600 && c.minutes == (n % 3600) / 60 && c.seconds == n % 60
  {
  }

  lemma SameTextSameFace(t1: nat, t2: nat)
    requires FormatTime(t1) == FormatTime(t2)
    ensures Clock(t1) == Clock(t2)
  {
    FormatTimeRoundTrip(t1);
    FormatTimeRoundTrip(t2);
  }

  lemma SameSecondsSameFace(t1: nat, t2: nat)
    requires (t1 / 1000) % 86400 == (t2 / 1000) % 86400
    ensures Clock(t1) == Clock(t2)
  {
    ClockDenotes(t1);
    ClockDenotes(t2);
    FaceOfSeconds(Clock(t1));
    FaceOfSeconds(Clock(t2));
  }

  /** Two times print alike exactly when they agree in whole seconds
      modulo one day. */
  lemma FormatTimeSameExactly(t1: nat, t2: nat)
    ensures FormatTime(t1) == FormatTime(t2) <==> (t1 / 1000) % 86400 == (t2 / 1000) % 86400
  {
    if FormatTime(t1) == FormatTime(t2) {
      SameTextSameFace(t1, t2);
      ClockDenotes(t1);
      ClockDenotes(t2);
    }
    if (t1 / 1000) % 86400 == (t2 / 1000) % 86400 {
      SameSecondsSameFace(t1, t2);
    }
  }

  /** On mount the page ends the vote one session length after `start`.
      Every tick within that hour shows the exact time still to go, at most
      the whole session, and the first tick at or after the end stops the
      timer; the full session prints as "1:00:00". */
  lemma SessionCountdown(start: int, now: int)
    requires start <= now
    ensures var t := OnTick(start + SessionLength, now);
      && t.remaining <= SessionLength
      && (t.stop <==> now >= start + SessionLength)
      && (!t.stop ==> t.remaining == start + SessionLength - now)
    ensures FormatTime(SessionLength) == "1:00:00"
  {
    assert Clock(SessionLength) == ClockFace(1, 0, 0);
  }
}
