/**
 * VIP protection and despawn times: the VIP tier of a player is the held
 * tier permission with the greatest level, a level being the digits at
 * the end of the permission's last dot-separated part; a tier may set its
 * own protection and despawn times, the global ones filling in.
 */
module VipTime {
  import opened Common

  /** The label of a player without a VIP tier. */
  const PLAIN_LABEL := "普通"

  /** The `vip-times` section and the two global times it falls back to. */
  datatype VipTimeConfig = VipTimeConfig(
    enabled: bool,                   // vip-times.enabled, default true
    protectionTime: int,             // tombstone.protection-time, default 60
    despawnTime: int,                // tombstone.despawn-time, default 24
    tiers: seq<string>,              // the keys of vip-times.permissions, in file order
    protectionTimes: map<string, int>,
    despawnTimes: map<string, int>)

  // ---------------------------------------------------------------------
  // The level of a permission

  /** `split("\\.")` drops trailing empty parts: the last part is what remains once the trailing dots are gone. */
  function WithoutTrailingDots(s: string): (r: string)
    ensures |r| <= |s| && r == s[..|r|]
    ensures |r| == 0 || r[|r| - 1] != '.'
    ensures forall i :: |r| <= i < |s| ==> s[i] == '.'
  {
    if |s| == 0 || s[|s| - 1] != '.' then s else WithoutTrailingDots(s[..|s| - 1])
  }

  /** The maximal run of digits at the end of `s`. */
  function TrailingDigits(s: string): (r: string)
    ensures |r| <= |s| && r == s[|s| - |r|..]
    ensures AllDigits(r)
    ensures |r| == |s| || !IsDigit(s[|s| - |r| - 1])
  {
    if |s| == 0 || !IsDigit(s[|s| - 1]) then []
    else
      var init := TrailingDigits(s[..|s| - 1]);
      assert s[|s| - 1 - |init|..] == init + [s[|s| - 1]];
      init + [s[|s| - 1]]
  }

  /**
   * The level a permission stands for: its trailing digits parsed as an
   * `int`; no digits, or a value beyond `int`, give 0.
   */
  function VipLevel(permission: string): (level: int)
    ensures 0 <= level <= INT_MAX
  {
    var digits := TrailingDigits(WithoutTrailingDots(permission));
    if |digits| == 0 then 0
    else match ParseInteger(digits, 0, INT_MAX)
      case Some(v) => v
      case None => 0
  }

  /** `s[i..]` is the trailing digit run when it is all digits and nothing before it is a digit. */
  lemma TrailingDigitsAt(s: string, i: nat)
    requires i <= |s|
    requires forall j :: i <= j < |s| ==> IsDigit(s[j])
    requires i == 0 || !IsDigit(s[i - 1])
    ensures TrailingDigits(s) == s[i..]
  {
  }

  /** `extractVipLevel`: walks back from the end of the last part collecting digits. */
  method ExtractVipLevel(permission: string) returns (level: int)
    ensures level == VipLevel(permission)
  {
    var lastPart := WithoutTrailingDots(permission);
    var i := |lastPart|;
    while i > 0 && IsDigit(lastPart[i - 1])
      invariant 0 <= i <= |lastPart|
      invariant forall j :: i <= j < |lastPart| ==> IsDigit(lastPart[j])
    {
      i := i - 1;
    }
    var digits := lastPart[i..];
    TrailingDigitsAt(lastPart, i);
    level := 0;
    if |digits| > 0 {
      var parsed := ParseInteger(digits, 0, INT_MAX);
      if parsed.Some? {
        level := parsed.value;
      }
    }
  }

  /**
   * A permission whose last part ends in the decimal text of `n`, after a
   * non-digit, is level `n`, trailing dots or not.
   */
  lemma {:induction false} LevelOfNumberedPermission(name: string, n: nat, dots: nat)
    requires n <= INT_MAX
    requires |name| == 0 || !IsDigit(name[|name| - 1])
    ensures VipLevel(name + NatToString(n) + seq(dots, _ => '.')) == n
  {
    var digits := NatToString(n);
    NatToStringDigits(n);
    var q := name + digits;
    assert q[|q| - 1] == digits[|digits| - 1];
    StripDots(q, dots);
    TrailingDigitsAfter(name, digits);
    ParseDigits(digits);
  }

  lemma {:induction false} StripDots(q: string, dots: nat)
    requires |q| > 0 && q[|q| - 1] != '.'
    ensures WithoutTrailingDots(q + seq(dots, _ => '.')) == q
  {
    if dots > 0 {
      var s := q + seq(dots, _ => '.');
      assert s[..|s| - 1] == q + seq(dots - 1, _ => '.');
      StripDots(q, dots - 1);
    } else {
      assert q + seq(dots, _ => '.') == q;
    }
  }

  lemma TrailingDigitsAfter(name: string, digits: string)
    requires AllDigits(digits)
    requires |name| == 0 || !IsDigit(name[|name| - 1])
    ensures TrailingDigits(name + digits) == digits
  {
    var s := name + digits;
    assert s[|name|..] == digits;
    TrailingDigitsAt(s, |name|);
  }

  lemma ParseDigits(digits: string)
    requires |digits| > 0 && AllDigits(digits) && DigitsValue(digits) <= INT_MAX
    ensures ParseInteger(digits, 0, INT_MAX) == Some(DigitsValue(digits))
  {
    assert IsDigit(digits[0]);
  }

  /** A permission without a digit at the end of its last part is level 0. */
  lemma NoDigitsLevelZero(permission: string)
    requires var last := WithoutTrailingDots(permission); |last| == 0 || !IsDigit(last[|last| - 1])
    ensures VipLevel(permission) == 0
  {
  }

  // ---------------------------------------------------------------------
  // The highest tier

  /**
   * The position of the running best over the tiers in order, for levels
   * given by `level`: a later held tier replaces it only with a strictly
   * greater level.
   */
  function HighestIndexBy(tiers: seq<string>, player: Player, level: string -> int): (r: Option<nat>)
    ensures r.Some? ==> r.value < |tiers|
  {
    if |tiers| == 0 then None
    else
      var best := HighestIndexBy(tiers[..|tiers| - 1], player, level);
      var p := tiers[|tiers| - 1];
      if HasPermission(player, p) && (best.None? || level(p) > level(tiers[best.value]))
      then Some(|tiers| - 1) else best
  }

  /** The running best with the levels of `VipLevel`. */
  function HighestIndex(tiers: seq<string>, player: Player): (r: Option<nat>)
    ensures r.Some? ==> r.value < |tiers|
  {
    HighestIndexBy(tiers, player, VipLevel)
  }

  /** The tier at that position. */
  function Highest(tiers: seq<string>, player: Player): Option<string>
  {
    match HighestIndex(tiers, player)
    case Some(j) => Some(tiers[j])
    case None => None
  }

  /** The running best is a held tier of the greatest level, the first of them. */
  lemma {:induction false} HighestSpecBy(tiers: seq<string>, player: Player, level: string -> int)
    ensures HighestIndexBy(tiers, player, level).None? <==> forall i :: 0 <= i < |tiers| ==> !HasPermission(player, tiers[i])
    ensures HighestIndexBy(tiers, player, level).Some? ==>
      var j := HighestIndexBy(tiers, player, level).value;
      && HasPermission(player, tiers[j])
      && (forall i :: 0 <= i < |tiers| && HasPermission(player, tiers[i]) ==> level(tiers[i]) <= level(tiers[j]))
      && (forall k :: 0 <= k < j && HasPermission(player, tiers[k]) ==> level(tiers[k]) < level(tiers[j]))
  {
    if |tiers| > 0 {
      var n := |tiers| - 1;
      var init := tiers[..n];
      HighestSpecBy(init, player, level);
      assert forall i :: 0 <= i < n ==> init[i] == tiers[i];
    }
  }

  /**
   * `getHighestVipPermission`'s result: nothing exactly when no tier is
   * held; otherwise a held tier of the greatest level, every earlier held
   * tier being of a strictly lower level.
   */
  lemma HighestSpec(tiers: seq<string>, player: Player)
    ensures HighestIndex(tiers, player).None? <==> forall i :: 0 <= i < |tiers| ==> !HasPermission(player, tiers[i])
    ensures HighestIndex(tiers, player).Some? ==>
      var j := HighestIndex(tiers, player).value;
      && HasPermission(player, tiers[j])
      && (forall i :: 0 <= i < |tiers| && HasPermission(player, tiers[i]) ==> VipLevel(tiers[i]) <= VipLevel(tiers[j]))
      && (forall k :: 0 <= k < j && HasPermission(player, tiers[k]) ==> VipLevel(tiers[k]) < VipLevel(tiers[j]))
  {
    HighestSpecBy(tiers, player, VipLevel);
  }

  /** `getHighestVipPermission`: the loop with the best level so far, starting below every level. */
  method GetHighestVipPermission(tiers: seq<string>, player: Player) returns (highest: Option<string>)
    ensures highest == Highest(tiers, player)
  {
    highest := None;
    var highestLevel := -1;
    var i := 0;
    while i < |tiers|
      invariant 0 <= i <= |tiers|
      invariant highest == Highest(tiers[..i], player)
      invariant highestLevel == if highest.None? then -1 else VipLevel(highest.value)
    {
      assert tiers[..i + 1][..i] == tiers[..i];
      var permission := tiers[i];
      if HasPermission(player, permission) {
        var level := ExtractVipLevel(permission);
        if level > highestLevel {
          highestLevel := level;
          highest := Some(permission);
        }
      }
      i := i + 1;
    }
    assert tiers[..|tiers|] == tiers;
  }

  // ---------------------------------------------------------------------
  // The getters

  /** A tier's own time when it sets one, else the global time. */
  function TierTime(cfg: VipTimeConfig, player: Player, times: map<string, int>, global: int): int
  {
    if !cfg.enabled then global
    else match Highest(cfg.tiers, player)
      case Some(p) => if p in times then times[p] else global
      case None => global
  }

  /** `getProtectionTime`, in minutes. */
  function GetProtectionTime(cfg: VipTimeConfig, player: Player): int
  {
    TierTime(cfg, player, cfg.protectionTimes, cfg.protectionTime)
  }

  /** `getDespawnTime`, in hours. */
  function GetDespawnTime(cfg: VipTimeConfig, player: Player): int
  {
    TierTime(cfg, player, cfg.despawnTimes, cfg.despawnTime)
  }

  /** `isVipPlayer`. */
  predicate IsVipPlayer(cfg: VipTimeConfig, player: Player)
  {
    cfg.enabled && Highest(cfg.tiers, player).Some?
  }

  /** `getVipLevelDisplay`. */
  function GetVipLevelDisplay(cfg: VipTimeConfig, player: Player): string
  {
    if IsVipPlayer(cfg, player) then "VIP" + IntToString(VipLevel(Highest(cfg.tiers, player).value)) else PLAIN_LABEL
  }

  /** `getAllVipPermissions`: none while VIP times are off. */
  function GetAllVipPermissions(cfg: VipTimeConfig): (r: set<string>)
    ensures cfg.enabled ==> forall i :: 0 <= i < |cfg.tiers| ==> cfg.tiers[i] in r
    ensures !cfg.enabled ==> r == {}
  {
    if cfg.enabled then set i | 0 <= i < |cfg.tiers| :: cfg.tiers[i] else {}
  }

  /**
   * The global times apply to everyone while VIP times are off and to a
   * player holding no tier; a VIP's tier time applies where the tier sets one.
   */
  lemma TimesRules(cfg: VipTimeConfig, player: Player)
    ensures !IsVipPlayer(cfg, player) ==>
      GetProtectionTime(cfg, player) == cfg.protectionTime && GetDespawnTime(cfg, player) == cfg.despawnTime
    ensures IsVipPlayer(cfg, player) ==>
      var tier := Highest(cfg.tiers, player).value;
      && GetProtectionTime(cfg, player) == (if tier in cfg.protectionTimes then cfg.protectionTimes[tier] else cfg.protectionTime)
      && GetDespawnTime(cfg, player) == (if tier in cfg.despawnTimes then cfg.despawnTimes[tier] else cfg.despawnTime)
    ensures IsVipPlayer(cfg, player) <==> cfg.enabled && exists i :: 0 <= i < |cfg.tiers| && HasPermission(player, cfg.tiers[i])
  {
    HighestSpec(cfg.tiers, player);
  }

  /** The label says "VIP" exactly for a VIP player, with the level of the highest tier. */
  lemma DisplayRules(cfg: VipTimeConfig, player: Player)
    ensures IsVipPlayer(cfg, player) <==> StartsWith(GetVipLevelDisplay(cfg, player), "VIP")
    ensures IsVipPlayer(cfg, player) ==>
      GetVipLevelDisplay(cfg, player) == "VIP" + IntToString(VipLevel(Highest(cfg.tiers, player).value))
    ensures !IsVipPlayer(cfg, player) ==> GetVipLevelDisplay(cfg, player) == PLAIN_LABEL
  {
    if IsVipPlayer(cfg, player) {
      assert GetVipLevelDisplay(cfg, player)[..3] == "VIP";
    }
  }

  /** Of two held tiers of equal level, the one listed first wins. */
  lemma EarlierTierWinsTie(a: string, b: string, player: Player)
    requires HasPermission(player, a) && HasPermission(player, b)
    requires VipLevel(a) == VipLevel(b)
    ensures Highest([a, b], player) == Some(a)
  {
    TieBy(a, b, player, VipLevel);
  }

  lemma TieBy(a: string, b: string, player: Player, level: string -> int)
    requires HasPermission(player, a) && HasPermission(player, b)
    requires level(a) == level(b)
    ensures HighestIndexBy([a, b], player, level) == Some(0)
  {
    HighestSpecBy([a, b], player, level);
  }

  /** `playerdeadmanager.vip2` is level 2 and `playerdeadmanager.vip` level 0. */
  lemma ExampleLevels()
    ensures VipLevel("playerdeadmanager.vip2") == 2
    ensures VipLevel("playerdeadmanager.vip") == 0
  {
    LevelOfNumberedPermission("playerdeadmanager.vip", 2, 0);
    assert "playerdeadmanager.vip" + NatToString(2) + seq(0, _ => '.') == "playerdeadmanager.vip2";
    NoDigitsLevelZero("playerdeadmanager.vip");
  }
}
