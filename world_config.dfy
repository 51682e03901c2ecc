/**
 * Per-world policy: which worlds have tombstones, the per-world overrides
 * of the pvp-only, economy and skull-protection switches, and the
 * permission checks built on them. The configuration is a value; its
 * defaults are those the plugin falls back to.
 */
module WorldConfig {
  import opened Common

  /**
   * A per-world override: absent, a boolean, or a value that is not a
   * boolean (which reads as `true`).
   */
  datatype Setting = Flag(on: bool) | NotABoolean

  datatype Config = Config(
    disabledWorlds: seq<string>,
    enabledWorlds: seq<string>,
    pvpOnlyWorlds: map<string, Setting>,
    economyWorlds: map<string, Setting>,
    skullWorlds: map<string, Setting>,
    pvpOnly: bool,
    economyEnabled: bool,
    skullProtection: bool,
    permissionsEnabled: bool,
    basePermission: string,
    bypassPermission: string,
    pvpPermission: string,
    economyPermission: string,
    protectionPermission: string,
    adminPermission: string)

  /** The values used when the configuration file does not set them. */
  function DefaultConfig(): Config
  {
    Config([], [], map[], map[], map[], true, true, true, true,
           "playerdeadmanager.use", "playerdeadmanager.bypass.world", "playerdeadmanager.pvp",
           "playerdeadmanager.economy", "playerdeadmanager.protection", "playerdeadmanager.admin")
  }

  /** `isWorldEnabled`: never a disabled world; otherwise an empty enabled list admits every world. */
  predicate IsWorldEnabled(c: Config, world: string)
  {
    world !in c.disabledWorlds && (|c.enabledWorlds| == 0 || world in c.enabledWorlds)
  }

  /** A per-world entry, when present, decides; a non-boolean entry reads as `true`. */
  function Overridden(overrides: map<string, Setting>, world: string, global: bool): bool
  {
    if world in overrides then (if overrides[world].Flag? then overrides[world].on else true) else global
  }

  predicate IsPvpOnlyEnabled(c: Config, world: string)
  {
    Overridden(c.pvpOnlyWorlds, world, c.pvpOnly)
  }

  predicate IsEconomyEnabled(c: Config, world: string)
  {
    Overridden(c.economyWorlds, world, c.economyEnabled)
  }

  predicate IsSkullProtectionEnabled(c: Config, world: string)
  {
    Overridden(c.skullWorlds, world, c.skullProtection)
  }

  /** `hasBasicPermission`: always when permission checks are off. */
  predicate HasBasicPermission(c: Config, p: Player)
  {
    !c.permissionsEnabled || HasPermission(p, c.basePermission)
  }

  predicate HasAdminPermission(c: Config, p: Player)
  {
    HasPermission(p, c.adminPermission)
  }

  /** `canUseTombstoneInWorld`: the basic permission, and a disabled world only with the bypass permission. */
  predicate CanUseTombstoneInWorld(c: Config, p: Player, world: string)
  {
    HasBasicPermission(c, p) && (IsWorldEnabled(c, world) || HasPermission(p, c.bypassPermission))
  }

  /** `canUsePvpTombstoneInWorld`: in a pvp-only world the pvp permission is needed too. */
  predicate CanUsePvpTombstoneInWorld(c: Config, p: Player, world: string)
  {
    CanUseTombstoneInWorld(c, p, world) && (!IsPvpOnlyEnabled(c, world) || HasPermission(p, c.pvpPermission))
  }

  /** `canUseEconomyInWorld`. */
  predicate CanUseEconomyInWorld(c: Config, p: Player, world: string)
  {
    CanUseTombstoneInWorld(c, p, world) && IsEconomyEnabled(c, world) && HasPermission(p, c.economyPermission)
  }

  /** A listed disabled world stays disabled even when it is also listed as enabled. */
  lemma DisabledWins(c: Config, world: string)
    requires world in c.disabledWorlds
    ensures !IsWorldEnabled(c, world)
  {
  }

  /** Without lists every world is enabled. */
  lemma NoListsEnableAll(c: Config, world: string)
    requires |c.disabledWorlds| == 0 && |c.enabledWorlds| == 0
    ensures IsWorldEnabled(c, world)
  {
  }

  /** A world's own boolean beats the global switch, whatever the global says. */
  lemma OverrideBeatsGlobal(c: Config, world: string, on: bool)
    requires world in c.skullWorlds && c.skullWorlds[world] == Flag(on)
    ensures IsSkullProtectionEnabled(c, world) == on
    ensures IsSkullProtectionEnabled(c.(skullProtection := !c.skullProtection), world) == on
  {
  }

  /** Both derived checks need the basic one, and each adds only its own condition. */
  lemma DerivedChecksNeedBasic(c: Config, p: Player, world: string)
    ensures CanUsePvpTombstoneInWorld(c, p, world) ==> CanUseTombstoneInWorld(c, p, world)
    ensures CanUseEconomyInWorld(c, p, world) ==> CanUseTombstoneInWorld(c, p, world)
    ensures CanUseTombstoneInWorld(c, p, world) && !IsPvpOnlyEnabled(c, world) ==> CanUsePvpTombstoneInWorld(c, p, world)
    ensures !c.permissionsEnabled && IsWorldEnabled(c, world) ==> CanUseTombstoneInWorld(c, p, world)
  {
  }

  /** With the defaults every world is enabled and is pvp-only, has economy and has skull protection. */
  lemma Defaults(world: string, p: Player)
    ensures IsWorldEnabled(DefaultConfig(), world)
    ensures IsPvpOnlyEnabled(DefaultConfig(), world) && IsEconomyEnabled(DefaultConfig(), world)
    ensures IsSkullProtectionEnabled(DefaultConfig(), world)
    ensures CanUsePvpTombstoneInWorld(DefaultConfig(), p, world) <==>
      HasPermission(p, "playerdeadmanager.use") && HasPermission(p, "playerdeadmanager.pvp")
  {
  }
}
