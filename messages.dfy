/**
 * The message manager: message lookup with the chat prefix, `{key}`
 * placeholder substitution, the location placeholders, relative-time
 * buckets and the protection-status text. The message file is the map
 * `messages` from message key to text; colour-code translation is not
 * modelled (it is the identity here).
 */
module Messages {
  import opened Common

  /** The loaded message file. */
  datatype MessageConfig = MessageConfig(messages: map<string, string>)

  /** `getString(key, default)` on the message file. */
  function ConfigString(cfg: MessageConfig, key: string, default: string): string
  {
    if key in cfg.messages then cfg.messages[key] else default
  }

  // ---------------------------------------------------------------------
  // `{key}` substitution: the pattern `\{([^}]+)\}`

  /** The first index at or after `i` holding `}`, or `|s|` if there is none. */
  function FindClose(s: string, i: nat): (j: nat)
    requires i <= |s|
    ensures i <= j <= |s|
    ensures j < |s| ==> s[j] == '}'
    decreases |s| - i
  {
    if i == |s| || s[i] == '}' then i else FindClose(s, i + 1)
  }

  /** Skipping characters that are not `}` does not move the first `}`. */
  lemma {:induction false} FindCloseSkips(s: string, i: nat, j: nat)
    requires i <= j <= |s|
    requires forall k :: i <= k < j ==> s[k] != '}'
    ensures FindClose(s, i) == FindClose(s, j)
    decreases j - i
  {
    if i < j {
      FindCloseSkips(s, i + 1, j);
    }
  }

  /** Whether a placeholder match starts at `i`: `{`, at least one non-`}` character, then `}`. */
  predicate MatchAt(s: string, i: nat)
    requires i < |s|
  {
    s[i] == '{' && i + 1 < |s| && 1 + i < FindClose(s, i + 1) < |s|
  }

  /**
   * The text from index `i` on after substitution: each match whose key is
   * mapped is replaced by the value, every other character (including the
   * text of a match whose key is not mapped) is copied.
   */
  function SubstituteFrom(s: string, i: nat, ph: map<string, string>): string
    requires i <= |s|
    decreases |s| - i
  {
    if i == |s| then ""
    else
      var (piece, next) := Step(s, i, ph);
      piece + SubstituteFrom(s, next, ph)
  }

  /** The output for the match or character at `i`, and where scanning resumes. */
  function Step(s: string, i: nat, ph: map<string, string>): (r: (string, nat))
    requires i < |s|
    ensures i < r.1 <= |s|
  {
    if MatchAt(s, i) then
      var j := FindClose(s, i + 1);
      var key := s[i + 1..j];
      (if key in ph then ph[key] else s[i..j + 1], j + 1)
    else ([s[i]], i + 1)
  }

  function Substitute(s: string, ph: map<string, string>): string
  {
    SubstituteFrom(s, 0, ph)
  }

  /** With no mapped keys every match is kept verbatim. */
  lemma {:induction false} SubstituteFromNoKeys(s: string, i: nat)
    requires i <= |s|
    ensures SubstituteFrom(s, i, map[]) == s[i..]
    decreases |s| - i
  {
    if i < |s| {
      var (piece, next) := Step(s, i, map[]);
      SubstituteFromNoKeys(s, next);
      assert piece == s[i..next];
      assert s[i..] == s[i..next] + s[next..];
    }
  }

  /** The early return for an empty map agrees with the general substitution. */
  lemma SubstituteNoKeys(s: string)
    ensures Substitute(s, map[]) == s
  {
    SubstituteFromNoKeys(s, 0);
  }

  /** A lone placeholder is replaced by its value when mapped and kept otherwise. */
  lemma SubstituteSingle(key: string, ph: map<string, string>)
    requires |key| > 0
    requires forall k :: 0 <= k < |key| ==> key[k] != '}'
    ensures key in ph ==> Substitute("{" + key + "}", ph) == ph[key]
    ensures key !in ph ==> Substitute("{" + key + "}", ph) == "{" + key + "}"
  {
    var s := "{" + key + "}";
    assert forall k :: 1 <= k < |s| - 1 ==> s[k] == key[k - 1];
    FindCloseSkips(s, 1, |s| - 1);
    assert FindClose(s, 1) == |s| - 1;
    assert MatchAt(s, 0);
    assert s[1..|s| - 1] == key;
    assert s[0..|s|] == s;
    assert SubstituteFrom(s, |s|, ph) == "";
    assert Substitute(s, ph) == (if key in ph then ph[key] else s[0..|s|]) + SubstituteFrom(s, |s|, ph);
  }

  /** Text without an opening brace is never changed. */
  lemma {:induction false} SubstituteFromPlain(s: string, i: nat, ph: map<string, string>)
    requires i <= |s|
    requires forall k :: i <= k < |s| ==> s[k] != '{'
    ensures SubstituteFrom(s, i, ph) == s[i..]
    decreases |s| - i
  {
    if i < |s| {
      SubstituteFromPlain(s, i + 1, ph);
      assert s[i..] == [s[i]] + s[i + 1..];
    }
  }

  /** The scan for the closing brace of a match. */
  method SearchClose(s: string, from: nat) returns (j: nat)
    requires from <= |s|
    ensures j == FindClose(s, from)
  {
    j := from;
    while j < |s| && s[j] != '}'
      invariant from <= j <= |s|
      invariant FindClose(s, j) == FindClose(s, from)
      decreases |s| - j
    {
      j := j + 1;
    }
  }

  /** One round of the matcher: find the next match or copy one character. */
  method NextPiece(s: string, i: nat, m: map<string, string>) returns (piece: string, next: nat)
    requires i < |s|
    ensures (piece, next) == Step(s, i, m)
  {
    var j := i + 1;
    if s[i] == '{' {
      j := SearchClose(s, i + 1);
    }
    if s[i] == '{' && i + 1 < j < |s| {
      assert MatchAt(s, i);
      var key := s[i + 1..j];
      piece := if key in m then m[key] else s[i..j + 1];
      next := j + 1;
    } else {
      assert !MatchAt(s, i);
      piece := [s[i]];
      next := i + 1;
    }
  }

  /**
   * `replacePlaceholders`: a null or empty map returns the message
   * unchanged; otherwise the matches are visited left to right and the
   * result is built in a buffer.
   */
  method ReplacePlaceholders(message: string, ph: Option<map<string, string>>) returns (r: string)
    ensures ph.None? ==> r == message
    ensures ph.Some? ==> r == Substitute(message, ph.value)
  {
    if ph.None? || ph.value == map[] {
      if ph.Some? {
        SubstituteNoKeys(message);
      }
      return message;
    }
    r := SubstituteScan(message, ph.value);
  }

  /** The matcher loop of `replacePlaceholders`: copy, replace or keep each match in turn. */
  method SubstituteScan(message: string, m: map<string, string>) returns (r: string)
    ensures r == Substitute(message, m)
  {
    var result := "";
    var i := 0;
    while i < |message|
      invariant 0 <= i <= |message|
      invariant result + SubstituteFrom(message, i, m) == Substitute(message, m)
      decreases |message| - i
    {
      var piece, next := NextPiece(message, i, m);
      ghost var rest := SubstituteFrom(message, next, m);
      assert SubstituteFrom(message, i, m) == piece + rest;
      assert result + (piece + rest) == (result + piece) + rest;
      result := result + piece;
      i := next;
    }
    r := result;
  }

  // ---------------------------------------------------------------------
  // Message lookup

  /** The chat prefix is added to every message except the `prefix*` keys. */
  function WithPrefix(cfg: MessageConfig, key: string, message: string): (r: string)
    ensures |r| >= |message|
  {
    var prefix := ConfigString(cfg, "prefix", "");
    if prefix != "" && !StartsWith(key, "prefix") then prefix + message else message
  }

  /** `getMessage`: `None` for a missing key; otherwise prefix, then substitution. */
  function GetMessage(cfg: MessageConfig, key: string, ph: Option<map<string, string>>): (r: Option<string>)
    ensures r.Some? <==> key in cfg.messages
  {
    if key !in cfg.messages then None
    else
      var message := WithPrefix(cfg, key, cfg.messages[key]);
      Some(if ph.None? then message else Substitute(message, ph.value))
  }

  /** Without placeholders a message comes back as prefix plus text, or as the text alone. */
  lemma GetMessagePlain(cfg: MessageConfig, key: string)
    requires key in cfg.messages
    ensures var prefix := ConfigString(cfg, "prefix", "");
      GetMessage(cfg, key, None) == Some(
        if prefix != "" && !StartsWith(key, "prefix") then prefix + cfg.messages[key]
        else cfg.messages[key])
  {
  }

  /** A prefix key never gets the prefix, so the prefix is not doubled. */
  lemma PrefixKeyUnprefixed(cfg: MessageConfig, key: string)
    requires key in cfg.messages && StartsWith(key, "prefix")
    ensures GetMessage(cfg, key, Some(map[])) == Some(cfg.messages[key])
  {
    SubstituteNoKeys(cfg.messages[key]);
  }

  /** `sendMessage`: the text actually sent, if any. */
  function SentMessage(cfg: MessageConfig, key: string, ph: Option<map<string, string>>): (r: Option<string>)
    ensures r.Some? ==> key in cfg.messages && !Blank(r.value)
    ensures key in cfg.messages && !Blank(GetMessage(cfg, key, ph).value) ==> r.Some?
  {
    var m := GetMessage(cfg, key, ph);
    if m.Some? && !Blank(m.value) then m else None
  }

  /** `addLocationPlaceholders`. */
  function LocationPlaceholders(ph: map<string, string>, world: string, x: int, y: int, z: int): (r: map<string, string>)
    ensures r.Keys == ph.Keys + {"world", "x", "y", "z", "location"}
    ensures forall k :: k in ph && k !in {"world", "x", "y", "z", "location"} ==> r[k] == ph[k]
    ensures r["world"] == world && r["x"] == IntToString(x)
    ensures r["y"] == IntToString(y) && r["z"] == IntToString(z)
    ensures r["location"] == world + " " + r["x"] + ", " + r["y"] + ", " + r["z"]
  {
    ph["world" := world]["x" := IntToString(x)]["y" := IntToString(y)]["z" := IntToString(z)]
      ["location" := world + " " + IntToString(x) + ", " + IntToString(y) + ", " + IntToString(z)]
  }

  /** `addPlayerPlaceholders`. */
  function PlayerPlaceholders(ph: map<string, string>, p: Player): (r: map<string, string>)
    ensures r.Keys == ph.Keys + {"player", "uuid", "world"}
    ensures r["player"] == p.name && r["uuid"] == p.id && r["world"] == p.world
    ensures forall k :: k in ph && k !in {"player", "uuid", "world"} ==> r[k] == ph[k]
  {
    ph["player" := p.name]["uuid" := p.id]["world" := p.world]
  }

  // ---------------------------------------------------------------------
  // Literal replacement (`String.replace`)

  /** Every non-overlapping occurrence of `target`, left to right, replaced by `repl`. */
  function ReplaceAll(s: string, target: string, repl: string): string
    requires |target| > 0
    decreases |s|
  {
    if |s| < |target| then s
    else if s[..|target|] == target then repl + ReplaceAll(s[|target|..], target, repl)
    else [s[0]] + ReplaceAll(s[1..], target, repl)
  }

  /** A template that is exactly the target becomes the replacement. */
  lemma ReplaceAllWhole(target: string, repl: string)
    requires |target| > 0
    ensures ReplaceAll(target, target, repl) == repl
  {
    assert target[|target|..] == "";
  }

  /** Replacing the target by itself gives the text back. */
  lemma {:induction false} ReplaceAllSame(s: string, target: string)
    requires |target| > 0
    ensures ReplaceAll(s, target, target) == s
    decreases |s|
  {
    if |s| >= |target| {
      if s[..|target|] == target {
        ReplaceAllSame(s[|target|..], target);
        assert s == s[..|target|] + s[|target|..];
      } else {
        ReplaceAllSame(s[1..], target);
        assert s == [s[0]] + s[1..];
      }
    }
  }

  // ---------------------------------------------------------------------
  // Relative time

  datatype RelativeBucket = JustNow | SecondsAgo | MinutesAgo | HoursAgo | DaysAgo

  /** The bucket `getRelativeTime` picks for a difference in milliseconds (Java truncating division). */
  function BucketOf(diff: int): RelativeBucket
  {
    var seconds := JDiv(diff, 1000);
    var minutes := JDiv(seconds, 60);
    var hours := JDiv(minutes, 60);
    if seconds < 60 then (if seconds < 5 then JustNow else SecondsAgo)
    else if minutes < 60 then MinutesAgo
    else if hours < 24 then HoursAgo
    else DaysAgo
  }

  /** Each bucket covers exactly one interval of elapsed milliseconds. */
  lemma BucketThresholds(diff: int)
    ensures BucketOf(diff) == JustNow <==> diff < 5_000
    ensures BucketOf(diff) == SecondsAgo <==> 5_000 <= diff < 60_000
    ensures BucketOf(diff) == MinutesAgo <==> 60_000 <= diff < 3_600_000
    ensures BucketOf(diff) == HoursAgo <==> 3_600_000 <= diff < 86_400_000
    ensures BucketOf(diff) == DaysAgo <==> diff >= 86_400_000
  {
    if diff >= 0 {
      var s := diff / 1000;
      var m := s / 60;
      assert m == diff / 60_000;
      assert m / 60 == diff / 3_600_000;
    }
  }

  /** `getRelativeTime(timestamp)` at time `now`. */
  function RelativeTime(cfg: MessageConfig, timestamp: int, now: int): string
  {
    var diff := now - timestamp;
    var seconds := JDiv(diff, 1000);
    var minutes := JDiv(seconds, 60);
    var hours := JDiv(minutes, 60);
    var days := JDiv(hours, 24);
    match BucketOf(diff)
    case JustNow => ConfigString(cfg, "time.just-now", "刚刚")
    case SecondsAgo => ReplaceAll(ConfigString(cfg, "time.seconds-ago", "{time}秒前"), "{time}", IntToString(seconds))
    case MinutesAgo => ReplaceAll(ConfigString(cfg, "time.minutes-ago", "{time}分钟前"), "{time}", IntToString(minutes))
    case HoursAgo => ReplaceAll(ConfigString(cfg, "time.hours-ago", "{time}小时前"), "{time}", IntToString(hours))
    case DaysAgo => ReplaceAll(ConfigString(cfg, "time.days-ago", "{time}天前"), "{time}", IntToString(days))
  }

  /** With the default texts, a death four seconds ago reads "刚刚". */
  lemma RelativeTimeJustNow(timestamp: int, now: int)
    requires 0 <= now - timestamp < 5_000
    ensures RelativeTime(MessageConfig(map[]), timestamp, now) == "刚刚"
  {
    BucketThresholds(now - timestamp);
  }

  // ---------------------------------------------------------------------
  // Protection status

  datatype TimeUnit = Seconds | Minutes | Hours

  function UnitSeconds(u: TimeUnit): int
  {
    match u
    case Seconds => 1
    case Minutes => 60
    case Hours => 3600
  }

  function UnitText(u: TimeUnit): string
  {
    match u
    case Seconds => "秒"
    case Minutes => "分钟"
    case Hours => "小时"
  }

  /** The amount and unit `formatTime` shows: whole minutes or hours, rounded down. */
  function TimeAmount(seconds: int): (r: (int, TimeUnit))
    ensures seconds < 60 ==> r == (seconds, Seconds)
    ensures seconds >= 60 ==> r.0 * UnitSeconds(r.1) <= seconds < (r.0 + 1) * UnitSeconds(r.1) && r.0 >= 1
    ensures 60 <= seconds < 3600 <==> r.1 == Minutes
    ensures seconds >= 3600 <==> r.1 == Hours
  {
    if seconds < 60 then (seconds, Seconds)
    else if seconds < 3600 then (seconds / 60, Minutes)
    else (seconds / 3600, Hours)
  }

  /** `formatTime(seconds)`. */
  function FormatTime(seconds: int): string
  {
    var (n, u) := TimeAmount(seconds);
    IntToString(n) + UnitText(u)
  }

  /** `formatProtectionStatus`: expired text, then public text for nothing left, then the active text. */
  function FormatProtectionStatus(cfg: MessageConfig, isProtected: bool, remainingSeconds: int): (r: string)
    ensures !isProtected ==> r == ConfigString(cfg, "protection.expired", "&c已过期")
    ensures isProtected && remainingSeconds <= 0 ==> r == ConfigString(cfg, "protection.public", "&e公共访问")
    ensures isProtected && remainingSeconds > 0 ==>
      r == ReplaceAll(ConfigString(cfg, "protection.active", "&a受保护 ({time})"), "{time}", FormatTime(remainingSeconds))
  {
    if !isProtected then ConfigString(cfg, "protection.expired", "&c已过期")
    else if remainingSeconds <= 0 then ConfigString(cfg, "protection.public", "&e公共访问")
    else ReplaceAll(ConfigString(cfg, "protection.active", "&a受保护 ({time})"), "{time}", FormatTime(remainingSeconds))
  }
}
