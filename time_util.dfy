/**
 * Time arithmetic on millisecond timestamps: remaining time, expiry, unit
 * conversions with `TimeUnit`'s saturation, and the decomposition into
 * days, hours, minutes and seconds that the remaining-time and duration
 * texts display. The clock is the parameter `now`; the message manager is
 * optional (`None` is the `null` manager of the deprecated overloads).
 */
module TimeUtil {
  import opened Common
  import opened Messages

  const MILLIS_PER_SECOND := 1000
  const MILLIS_PER_MINUTE := 60_000
  const MILLIS_PER_HOUR := 3_600_000
  const MILLIS_PER_DAY := 86_400_000

  /** `getRemainingTime`: never negative. */
  function GetRemainingTime(expireTime: int, now: int): (r: int)
    ensures r >= 0
    ensures r == 0 || r == expireTime - now
  {
    Max(0, expireTime - now)
  }

  /** `isExpired`: strictly after the expiry instant. */
  predicate IsExpired(expireTime: int, now: int)
  {
    now > expireTime
  }

  /** Time is left exactly when the instant has not yet been reached. */
  lemma RemainingIffBeforeExpiry(expireTime: int, now: int)
    ensures GetRemainingTime(expireTime, now) > 0 <==> now < expireTime
    ensures IsExpired(expireTime, now) ==> GetRemainingTime(expireTime, now) == 0
  {
  }

  /**
   * `TimeUnit.toMillis`: the product, or `Long.MAX_VALUE`/`Long.MIN_VALUE`
   * once the count passes `over = Long.MAX_VALUE / factor` either way.
   */
  function SaturatingScale(d: int, factor: int, over: int): int
  {
    if d > over then LONG_MAX
    else if d < -over then LONG_MIN
    else d * factor
  }

  function MinutesToMillis(m: int): (r: int)
    ensures LONG_MIN <= r <= LONG_MAX
    ensures LONG_MIN <= m * MILLIS_PER_MINUTE <= LONG_MAX ==> r == m * MILLIS_PER_MINUTE
    ensures m * MILLIS_PER_MINUTE > LONG_MAX ==> r == LONG_MAX
    ensures m * MILLIS_PER_MINUTE < LONG_MIN ==> r == LONG_MIN
  {
    SaturatingScale(m, MILLIS_PER_MINUTE, 153_722_867_280_912)
  }

  function HoursToMillis(h: int): (r: int)
    ensures LONG_MIN <= r <= LONG_MAX
    ensures LONG_MIN <= h * MILLIS_PER_HOUR <= LONG_MAX ==> r == h * MILLIS_PER_HOUR
    ensures h * MILLIS_PER_HOUR > LONG_MAX ==> r == LONG_MAX
    ensures h * MILLIS_PER_HOUR < LONG_MIN ==> r == LONG_MIN
  {
    SaturatingScale(h, MILLIS_PER_HOUR, 2_562_047_788_015)
  }

  function DaysToMillis(d: int): (r: int)
    ensures LONG_MIN <= r <= LONG_MAX
    ensures LONG_MIN <= d * MILLIS_PER_DAY <= LONG_MAX ==> r == d * MILLIS_PER_DAY
    ensures d * MILLIS_PER_DAY > LONG_MAX ==> r == LONG_MAX
    ensures d * MILLIS_PER_DAY < LONG_MIN ==> r == LONG_MIN
  {
    SaturatingScale(d, MILLIS_PER_DAY, 106_751_991_167)
  }

  /** The conversions chain: a day is 24 hours, an hour 60 minutes, for any realistic count. */
  lemma ConversionsAgree(n: int)
    requires 0 <= n <= 1_000_000_000
    ensures DaysToMillis(n) == HoursToMillis(24 * n)
    ensures HoursToMillis(n) == MinutesToMillis(60 * n)
    ensures MinutesToMillis(n) == n * 60_000
  {
  }

  /**
   * The parts of a duration as `TimeUnit` and Java `%` compute them: whole
   * units truncated toward zero (on non-negative input that is plain
   * division and remainder).
   */
  datatype Parts = Parts(days: int, hours: int, minutes: int, seconds: int)

  function PartsOf(ms: int): Parts
  {
    if ms >= 0 then
      Parts(ms / MILLIS_PER_DAY, ms / MILLIS_PER_HOUR % 24, ms / MILLIS_PER_MINUTE % 60, ms / MILLIS_PER_SECOND % 60)
    else
      Parts(JDiv(ms, MILLIS_PER_DAY),
            JRem(JDiv(ms, MILLIS_PER_HOUR), 24),
            JRem(JDiv(ms, MILLIS_PER_MINUTE), 60),
            JRem(JDiv(ms, MILLIS_PER_SECOND), 60))
  }

  /** For a non-negative duration the parts are in range and add back up to the whole seconds. */
  lemma PartsRecompose(ms: int)
    requires ms >= 0
    ensures var p := PartsOf(ms);
      0 <= p.hours < 24 && 0 <= p.minutes < 60 && 0 <= p.seconds < 60 && p.days >= 0
      && p.days * MILLIS_PER_DAY + p.hours * MILLIS_PER_HOUR + p.minutes * MILLIS_PER_MINUTE
         + p.seconds * MILLIS_PER_SECOND + ms % 1000 == ms
  {
    var s := ms / 1000;
    var m := s / 60;
    var h := m / 60;
    assert ms / 60_000 == m;
    assert ms / 3_600_000 == h;
    assert ms / 86_400_000 == h / 24;
    assert ms == s * 1000 + ms % 1000;
    assert s == m * 60 + s % 60;
    assert m == h * 60 + m % 60;
    assert h == (h / 24) * 24 + h % 24;
  }

  /** Which of the remaining-time texts is shown. */
  datatype RemainingText =
    | ExpiredText
    | DaysHours(days: int, hours: int)
    | HoursMinutes(hours: int, minutes: int)
    | MinutesSeconds(minutes: int, seconds: int)
    | SecondsOnly(seconds: int)

  /** `formatRemainingTime`'s branch: the largest non-zero unit, or the expired text. */
  function RemainingTextOf(ms: int): RemainingText
  {
    if ms <= 0 then ExpiredText
    else
      var p := PartsOf(ms);
      if p.days > 0 then DaysHours(p.days, p.hours)
      else if p.hours > 0 then HoursMinutes(p.hours, p.minutes)
      else if p.minutes > 0 then MinutesSeconds(p.minutes, p.seconds)
      else SecondsOnly(p.seconds)
  }

  /** The branch depends only on which unit threshold the duration reaches. */
  lemma RemainingTextThresholds(ms: int)
    ensures RemainingTextOf(ms).ExpiredText? <==> ms <= 0
    ensures RemainingTextOf(ms).DaysHours? <==> ms >= MILLIS_PER_DAY
    ensures RemainingTextOf(ms).HoursMinutes? <==> MILLIS_PER_HOUR <= ms < MILLIS_PER_DAY
    ensures RemainingTextOf(ms).MinutesSeconds? <==> MILLIS_PER_MINUTE <= ms < MILLIS_PER_HOUR
    ensures RemainingTextOf(ms).SecondsOnly? <==> 0 < ms < MILLIS_PER_MINUTE
  {
    if ms > 0 {
      PartsRecompose(ms);
    }
  }

  /** A configured message with placeholders, or the built-in format when there is no manager or no message. */
  function Localized(mm: Option<MessageConfig>, key: string, ph: map<string, string>, fallback: string): string
  {
    if mm.None? then fallback
    else
      var m := GetMessage(mm.value, key, Some(ph));
      if m.Some? then m.value else fallback
  }

  function RenderRemaining(t: RemainingText, mm: Option<MessageConfig>): string
  {
    match t
    case ExpiredText =>
      if mm.Some? && GetMessage(mm.value, "time.expired", None).Some?
      then GetMessage(mm.value, "time.expired", None).value else "已过期"
    case DaysHours(d, h) =>
      Localized(mm, "time.duration.days-hours", map["days" := IntToString(d), "hours" := IntToString(h)],
                IntToString(d) + "天" + IntToString(h) + "小时")
    case HoursMinutes(h, m) =>
      Localized(mm, "time.duration.hours-minutes", map["hours" := IntToString(h), "minutes" := IntToString(m)],
                IntToString(h) + "小时" + IntToString(m) + "分钟")
    case MinutesSeconds(m, s) =>
      Localized(mm, "time.duration.minutes-seconds", map["minutes" := IntToString(m), "seconds" := IntToString(s)],
                IntToString(m) + "分钟" + IntToString(s) + "秒")
    case SecondsOnly(s) =>
      Localized(mm, "time.duration.seconds-only", map["seconds" := IntToString(s)], IntToString(s) + "秒")
  }

  /** `formatRemainingTime(remainingMillis, messageManager)`. */
  function FormatRemainingTime(ms: int, mm: Option<MessageConfig>): string
  {
    RenderRemaining(RemainingTextOf(ms), mm)
  }

  /** Without a manager, nothing left reads "已过期". */
  lemma FormatRemainingTimeExpired(ms: int)
    requires ms <= 0
    ensures FormatRemainingTime(ms, None) == "已过期"
  {
  }

  /** Under a minute every part but the seconds is zero. */
  lemma PartsUnderAMinute(ms: int)
    requires 0 < ms < MILLIS_PER_MINUTE
    ensures PartsOf(ms) == Parts(0, 0, 0, ms / 1000)
  {
    assert ms / MILLIS_PER_HOUR == 0 && ms / MILLIS_PER_MINUTE == 0;
  }

  /** Without a manager, under a minute reads as the whole seconds. */
  lemma FormatRemainingTimeSeconds(ms: int)
    requires 0 < ms < MILLIS_PER_MINUTE
    ensures FormatRemainingTime(ms, None) == IntToString(ms / 1000) + "秒"
  {
    PartsUnderAMinute(ms);
    assert RemainingTextOf(ms) == SecondsOnly(ms / 1000);
  }

  /**
   * A configured duration message goes through `getMessage`, so a
   * non-empty chat prefix is put in front of it.
   */
  lemma DurationTextCarriesPrefix(ms: int, cfg: MessageConfig)
    requires MILLIS_PER_DAY <= ms
    requires "time.duration.days-hours" in cfg.messages
    requires ConfigString(cfg, "prefix", "") != ""
    ensures FormatRemainingTime(ms, Some(cfg)) ==
      Substitute(ConfigString(cfg, "prefix", "") + cfg.messages["time.duration.days-hours"],
                 map["days" := IntToString(PartsOf(ms).days), "hours" := IntToString(PartsOf(ms).hours)])
  {
    RemainingTextThresholds(ms);
    var key := "time.duration.days-hours";
    assert key[..6] != "prefix" by {
      assert key[0] == 't';
    }
    assert !StartsWith(key, "prefix");
  }

  /** Which of the duration texts is shown: there is no seconds text. */
  datatype DurationText =
    | DurationDaysHours(days: int, hours: int)
    | DurationHoursMinutes(hours: int, minutes: int)
    | DurationMinutes(minutes: int)

  function DurationTextOf(ms: int): DurationText
  {
    var p := PartsOf(ms);
    if p.days > 0 then DurationDaysHours(p.days, p.hours)
    else if p.hours > 0 then DurationHoursMinutes(p.hours, p.minutes)
    else DurationMinutes(p.minutes)
  }

  /** Below one hour (including zero and negative durations) the duration is always in minutes. */
  lemma DurationTextThresholds(ms: int)
    ensures DurationTextOf(ms).DurationDaysHours? <==> ms >= MILLIS_PER_DAY
    ensures DurationTextOf(ms).DurationHoursMinutes? <==> MILLIS_PER_HOUR <= ms < MILLIS_PER_DAY
    ensures DurationTextOf(ms).DurationMinutes? <==> ms < MILLIS_PER_HOUR
  {
    if ms >= 0 {
      PartsRecompose(ms);
    } else {
      var h := JDiv(ms, MILLIS_PER_HOUR);
      assert h <= 0;
      assert JRem(h, 24) <= 0;
    }
  }

  /** `formatDuration(durationMillis, messageManager)`. */
  function FormatDuration(ms: int, mm: Option<MessageConfig>): string
  {
    match DurationTextOf(ms)
    case DurationDaysHours(d, h) =>
      Localized(mm, "time.duration.days-hours", map["days" := IntToString(d), "hours" := IntToString(h)],
                IntToString(d) + "天" + IntToString(h) + "小时")
    case DurationHoursMinutes(h, m) =>
      Localized(mm, "time.duration.hours-minutes", map["hours" := IntToString(h), "minutes" := IntToString(m)],
                IntToString(h) + "小时" + IntToString(m) + "分钟")
    case DurationMinutes(m) =>
      Localized(mm, "time.duration.minutes-only", map["minutes" := IntToString(m)], IntToString(m) + "分钟")
  }

  /** Half an hour is reported as 30 minutes. */
  lemma HalfHourDuration()
    ensures FormatDuration(1_800_000, None) == IntToString(30) + "分钟"
  {
    DurationTextThresholds(1_800_000);
  }
}
