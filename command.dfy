/**
 * The `/pdm` command: dispatch of the sub-commands and their aliases,
 * the permission gates of each, the 1-based tombstone index of
 * `teleport`, and tab completion.
 *
 * The sender's tombstone list is the manager's list for the sender,
 * latest death first; the messages sent are the outcomes below.
 */
module Commands {
  import opened Common
  import opened Store
  import opened TeleportMenu

  /** Who runs a command: the console (or another non-player) or a player. */
  datatype Sender = Console(perms: set<string>) | PlayerSender(player: Player)

  predicate SenderHas(s: Sender, perm: string)
  {
    match s
    case Console(perms) => perm in perms
    case PlayerSender(p) => HasPermission(p, perm)
  }

  const RELOAD_PERMISSION := "playerdeadmanager.admin.reload"
  const CLEANUP_PERMISSION := "playerdeadmanager.admin.cleanup"
  const LIST_PERMISSION := "playerdeadmanager.list"
  const GUI_PERMISSION := "playerdeadmanager.gui"
  const TELEPORT_COMMAND_PERMISSION := "playerdeadmanager.teleport"

  datatype Subcommand = Help | Reload | List | Menu | Teleport | Info | Cleanup | Unknown(name: string)

  /** The `switch` of `onCommand`, on the lower-cased first argument. */
  function ParseSubcommand(arg: string): (c: Subcommand)
  {
    SubcommandOf(Lower(arg))
  }

  /** The cases of the `switch`. */
  function SubcommandOf(s: string): Subcommand
  {
    if s == "help" || s == "?" then Help
    else if s == "reload" then Reload
    else if s == "list" || s == "ls" then List
    else if s == "gui" || s == "menu" then Menu
    else if s == "teleport" || s == "tp" then Teleport
    else if s == "info" || s == "version" then Info
    else if s == "cleanup" || s == "clean" then Cleanup
    else Unknown(s)
  }

  lemma LowerTwice(s: string)
    ensures Lower(Lower(s)) == Lower(s)
  {
    assert forall i :: 0 <= i < |s| ==> Lower(Lower(s))[i] == Lower(s)[i];
  }

  /** A word with no upper-case letter is its own lower case. */
  lemma LowerOfLowerCase(s: string)
    requires forall i :: 0 <= i < |s| ==> !('A' <= s[i] <= 'Z')
    ensures Lower(s) == s
  {
  }

  /** Dispatch ignores letter case, and an unknown word is reported lower-cased. */
  lemma DispatchIgnoresCase(arg: string)
    ensures ParseSubcommand(Lower(arg)) == ParseSubcommand(arg)
    ensures ParseSubcommand(arg).Unknown? ==> ParseSubcommand(arg).name == Lower(arg)
  {
    LowerTwice(arg);
  }

  /** Every alias names the same sub-command as its long form. */
  lemma Aliases()
    ensures SubcommandOf("?") == SubcommandOf("help") == Help
    ensures SubcommandOf("reload") == Reload
    ensures SubcommandOf("ls") == SubcommandOf("list") == List
    ensures SubcommandOf("menu") == SubcommandOf("gui") == Menu
    ensures SubcommandOf("tp") == SubcommandOf("teleport") == Teleport
    ensures SubcommandOf("version") == SubcommandOf("info") == Info
    ensures SubcommandOf("clean") == SubcommandOf("cleanup") == Cleanup
  {
  }

  /** A word without upper-case letters is dispatched as it stands; `TP` is `tp`. */
  lemma LowerCaseDispatch(s: string)
    requires forall i :: 0 <= i < |s| ==> !('A' <= s[i] <= 'Z')
    ensures ParseSubcommand(s) == SubcommandOf(s)
    ensures ParseSubcommand(Upper(s)) == SubcommandOf(s)
  {
    LowerOfLowerCase(s);
    LowerOfUpper(s);
  }

  lemma LowerOfUpper(s: string)
    requires forall i :: 0 <= i < |s| ==> !('A' <= s[i] <= 'Z')
    ensures Lower(Upper(s)) == s
  {
    var u := Upper(s);
    forall i | 0 <= i < |s|
      ensures Lower(u)[i] == s[i]
    {
      LowerUpperChar(s[i]);
    }
  }

  lemma LowerUpperChar(c: char)
    requires !('A' <= c <= 'Z')
    ensures LowerChar(UpperChar(c)) == c
  {
  }

  // ---------------------------------------------------------------------
  // The teleport index

  /**
   * `Integer.parseInt(arg) - 1` in 32-bit arithmetic, or `None` for the
   * `NumberFormatException`.
   */
  function TeleportIndex(arg: string): (r: Option<int>)
    ensures r.Some? <==> ParseInteger(arg, INT_MIN, INT_MAX).Some?
  {
    match ParseInteger(arg, INT_MIN, INT_MAX)
    case None => None
    case Some(v) => Some(Wrap32(v - 1))
  }

  /** The index names a tombstone of a list of `count`. */
  predicate InRange(index: int, count: nat)
  {
    0 <= index < count
  }

  /**
   * The number a player types for the `i`-th listed tombstone is `i + 1`,
   * which is also the completion offered for it.
   */
  lemma TeleportIndexOfNumber(i: nat, count: nat)
    requires i < count && i < INT_MAX
    ensures TeleportIndex(NatToString(i + 1)) == Some(i)
    ensures InRange(TeleportIndex(NatToString(i + 1)).value, count)
  {
    ParseIntToString(i + 1, INT_MIN, INT_MAX);
    assert IntToString(i + 1) == NatToString(i + 1);
  }

  /** A typed number selects a tombstone exactly when it lies between 1 and the count. */
  lemma AcceptedNumbers(arg: string, count: nat)
    requires count <= INT_MAX
    ensures TeleportIndex(arg).Some? && InRange(TeleportIndex(arg).value, count) <==>
      ParseInteger(arg, INT_MIN, INT_MAX).Some? && 1 <= ParseInteger(arg, INT_MIN, INT_MAX).value <= count
  {
  }

  /** The smallest `int`, whose decrement wraps round to the largest, is refused like every other number below 1. */
  lemma SmallestIntWraps(m: int)
    requires m == INT_MIN
    ensures TeleportIndex(IntToString(m)) == Some(INT_MAX)
  {
    ParseIntToString(m, INT_MIN, INT_MAX);
    IndexOfSmallest(IntToString(m));
  }

  lemma IndexOfSmallest(arg: string)
    requires ParseInteger(arg, INT_MIN, INT_MAX) == Some(INT_MIN)
    ensures TeleportIndex(arg) == Some(INT_MAX)
  {
  }

  // ---------------------------------------------------------------------
  // Running a command

  datatype CommandOutcome =
    | HelpShown
    | ReloadDenied | Reloaded
    | PlayerOnly
    | ListDenied | NoTombstones | Listed(entries: seq<TombstoneData>)
    | GuiDenied | GuiOpened
    | TeleportDenied | TeleportUsage | InvalidNumber | InvalidIndex(max: nat)
    | TeleportWorldNotFound(world: string) | TeleportedTo(target: Location)
    | InfoShown
    | CleanupDenied | CleanupStarted
    | UnknownCommand(name: string)

  /**
   * `onCommand` for a sender whose tombstones are `listed`; `worlds` are
   * the loaded worlds. Every command is handled: the result is `true`
   * whatever the outcome.
   */
  function OnCommand(sender: Sender, args: seq<string>, listed: seq<TombstoneData>, worlds: set<string>)
    : (r: (bool, CommandOutcome))
  {
    if |args| == 0 then (true, HelpShown)
    else
      var rest := args[1..];
      match ParseSubcommand(args[0])
      case Help => (true, HelpShown)
      case Reload => (true, if SenderHas(sender, RELOAD_PERMISSION) then Reloaded else ReloadDenied)
      case List => (true, ListCommand(sender, listed))
      case Menu => (true, GuiCommand(sender))
      case Teleport => (true, TeleportCommand(sender, rest, listed, worlds))
      case Info => (true, InfoShown)
      case Cleanup => (true, if SenderHas(sender, CLEANUP_PERMISSION) then CleanupStarted else CleanupDenied)
      case Unknown(name) => (true, UnknownCommand(name))
  }

  function ListCommand(sender: Sender, listed: seq<TombstoneData>): CommandOutcome
  {
    if !sender.PlayerSender? then PlayerOnly
    else if !SenderHas(sender, LIST_PERMISSION) then ListDenied
    else if |listed| == 0 then NoTombstones
    else Listed(listed)
  }

  function GuiCommand(sender: Sender): CommandOutcome
  {
    if !sender.PlayerSender? then PlayerOnly
    else if !SenderHas(sender, GUI_PERMISSION) then GuiDenied
    else GuiOpened
  }

  /** `handleTeleportCommand` and `teleportToTombstone`. */
  function TeleportCommand(sender: Sender, args: seq<string>, listed: seq<TombstoneData>, worlds: set<string>): CommandOutcome
  {
    if !sender.PlayerSender? then PlayerOnly
    else if !SenderHas(sender, TELEPORT_COMMAND_PERMISSION) then TeleportDenied
    else if |args| == 0 then TeleportUsage
    else match TeleportIndex(args[0])
      case None => InvalidNumber
      case Some(i) =>
        if !InRange(i, |listed|) then InvalidIndex(|listed|)
        else if listed[i].world !in worlds then TeleportWorldNotFound(listed[i].world)
        else TeleportedTo(TeleportTarget(listed[i]))
  }

  /** `onCommand` always reports the command as handled, and no arguments show the help. */
  lemma CommandAlwaysHandled(sender: Sender, args: seq<string>, listed: seq<TombstoneData>, worlds: set<string>)
    ensures OnCommand(sender, args, listed, worlds).0
    ensures |args| == 0 ==> OnCommand(sender, args, listed, worlds).1 == HelpShown
  {
  }

  /** Reload and cleanup do nothing for a sender without their admin permissions, player or console alike. */
  lemma AdminCommandsNeedPermission(sender: Sender, args: seq<string>, listed: seq<TombstoneData>, worlds: set<string>)
    requires |args| > 0
    ensures ParseSubcommand(args[0]) == Reload ==>
      (OnCommand(sender, args, listed, worlds).1 == Reloaded <==> SenderHas(sender, RELOAD_PERMISSION))
    ensures ParseSubcommand(args[0]) == Cleanup ==>
      (OnCommand(sender, args, listed, worlds).1 == CleanupStarted <==> SenderHas(sender, CLEANUP_PERMISSION))
  {
  }

  /**
   * A teleport happens only for a player with the permission, a number
   * between 1 and the count, and a loaded world; it goes just above the
   * tombstone that number names.
   */
  lemma TeleportRules(p: Player, args: seq<string>, listed: seq<TombstoneData>, worlds: set<string>)
    requires |args| > 0 && |listed| <= INT_MAX
    ensures var r := TeleportCommand(PlayerSender(p), args, listed, worlds);
      r.TeleportedTo? <==>
        && HasPermission(p, TELEPORT_COMMAND_PERMISSION)
        && ParseInteger(args[0], INT_MIN, INT_MAX).Some?
        && 1 <= ParseInteger(args[0], INT_MIN, INT_MAX).value <= |listed|
        && listed[ParseInteger(args[0], INT_MIN, INT_MAX).value - 1].world in worlds
    ensures var r := TeleportCommand(PlayerSender(p), args, listed, worlds);
      r.TeleportedTo? ==> r.target == TeleportTarget(listed[ParseInteger(args[0], INT_MIN, INT_MAX).value - 1])
    ensures forall perms :: TeleportCommand(Console(perms), args, listed, worlds) == PlayerOnly
  {
    AcceptedNumbers(args[0], |listed|);
  }

  // ---------------------------------------------------------------------
  // Tab completion

  /** The first-argument completions, in this order. */
  const SUBCOMMANDS: seq<string> := ["help", "reload", "list", "gui", "teleport", "info", "cleanup"]

  /**
   * The permission a sub-command must be granted to be offered: its own
   * name under the plugin's prefix, except that cleanup asks for the
   * admin permission.
   */
  function CompletionPermissionAsWritten(sub: string): string
  {
    if sub == "cleanup" then CLEANUP_PERMISSION else "playerdeadmanager." + sub
  }

  /** The permission the command itself checks for the sub-commands that check one. */
  function CompletionPermission(sub: string): string
  {
    if sub == "cleanup" then CLEANUP_PERMISSION
    else if sub == "reload" then RELOAD_PERMISSION
    else "playerdeadmanager." + sub
  }

  /** The sub-commands of `subs` that start with `input` and that `sender` may be offered, in order. */
  function Offered(subs: seq<string>, input: string, sender: Sender): seq<string>
  {
    if |subs| == 0 then []
    else
      var last := subs[|subs| - 1];
      Offered(subs[..|subs| - 1], input, sender)
        + if StartsWith(last, input) && SenderHas(sender, CompletionPermission(last)) then [last] else []
  }

  lemma {:induction false} OfferedSpec(subs: seq<string>, input: string, sender: Sender)
    ensures forall x :: x in Offered(subs, input, sender) <==>
      x in subs && StartsWith(x, input) && SenderHas(sender, CompletionPermission(x))
    ensures |Offered(subs, input, sender)| <= |subs|
  {
    if |subs| > 0 {
      var init := subs[..|subs| - 1];
      OfferedSpec(init, input, sender);
      assert subs == init + [subs[|subs| - 1]];
      assert forall x :: x in subs <==> x in init || x == subs[|subs| - 1];
    }
  }

  /** The completions `"1"` to `"n"`. */
  function Numbers(n: nat): (r: seq<string>)
  {
    if n == 0 then [] else Numbers(n - 1) + [NatToString(n)]
  }

  lemma {:induction false} NumbersSpec(n: nat)
    ensures |Numbers(n)| == n
    ensures forall i :: 0 <= i < n ==> Numbers(n)[i] == NatToString(i + 1)
  {
    if n > 0 {
      NumbersSpec(n - 1);
    }
  }

  /**
   * `onTabComplete`: for the first argument, the permitted sub-commands
   * that start with the lower-cased input; for the second argument of
   * `teleport` (in any letter case, not its alias), the numbers of the
   * player's tombstones; otherwise nothing.
   */
  method OnTabComplete(sender: Sender, args: seq<string>, listed: seq<TombstoneData>) returns (completions: seq<string>)
    ensures |args| == 1 ==> completions == Offered(SUBCOMMANDS, Lower(args[0]), sender)
    ensures |args| == 2 && Lower(args[0]) == "teleport" && sender.PlayerSender? ==> completions == Numbers(|listed|)
    ensures |args| != 1 && !(|args| == 2 && Lower(args[0]) == "teleport" && sender.PlayerSender?) ==> completions == []
  {
    completions := [];
    if |args| == 1 {
      var input := Lower(args[0]);
      var i := 0;
      while i < |SUBCOMMANDS|
        invariant 0 <= i <= |SUBCOMMANDS|
        invariant completions == Offered(SUBCOMMANDS[..i], input, sender)
      {
        assert SUBCOMMANDS[..i + 1][..i] == SUBCOMMANDS[..i];
        var sub := SUBCOMMANDS[i];
        var permission := CompletionPermission(sub);
        if StartsWith(sub, input) && SenderHas(sender, permission) {
          completions := completions + [sub];
        }
        i := i + 1;
      }
      assert SUBCOMMANDS[..|SUBCOMMANDS|] == SUBCOMMANDS;
    } else if |args| == 2 && Lower(args[0]) == "teleport" && sender.PlayerSender? {
      var i := 1;
      while i <= |listed|
        invariant 1 <= i <= |listed| + 1
        invariant completions == Numbers(i - 1)
      {
        completions := completions + [NatToString(i)];
        i := i + 1;
      }
    }
  }

  /**
   * Every sub-command offered is a known one that starts with the input,
   * and the sender holds the permission the command itself checks.
   */
  lemma OfferedCanRun(subs: seq<string>, sender: Sender, input: string, sub: string)
    requires subs == SUBCOMMANDS && sub in Offered(subs, input, sender)
    ensures sub == "reload" ==> SenderHas(sender, RELOAD_PERMISSION)
    ensures sub == "cleanup" ==> SenderHas(sender, CLEANUP_PERMISSION)
    ensures sub == "list" ==> SenderHas(sender, LIST_PERMISSION)
    ensures sub == "gui" ==> SenderHas(sender, GUI_PERMISSION)
    ensures sub == "teleport" ==> SenderHas(sender, TELEPORT_COMMAND_PERMISSION)
    ensures StartsWith(sub, input) && !SubcommandOf(sub).Unknown?
  {
    OfferedSpec(subs, input, sender);
    OfferMatchesCommand();
    Aliases();
  }

  /** Every number offered after `teleport` selects the tombstone in that position. */
  lemma NumbersSelectTombstones(listed: seq<TombstoneData>, i: nat)
    requires i < |listed| && |listed| <= INT_MAX
    ensures i < |Numbers(|listed|)|
    ensures TeleportIndex(Numbers(|listed|)[i]) == Some(i) && InRange(i, |listed|)
  {
    NumbersSpec(|listed|);
    TeleportIndexOfNumber(i, |listed|);
  }

  // ---------------------------------------------------------------------
  // Finding: reload is offered under a permission the command never checks

  /**
   * As written, completion offers `reload` to holders of
   * `playerdeadmanager.reload`, while the command runs only for
   * `playerdeadmanager.admin.reload`: an admin who may reload is not
   * offered it, and a holder of the other permission is offered a
   * command that refuses them.
   */
  lemma ReloadOfferMismatch(name: string, id: Uuid, world: string)
    ensures var admin := Player(id, name, {RELOAD_PERMISSION}, world);
      SenderHas(PlayerSender(admin), RELOAD_PERMISSION)
      && !SenderHas(PlayerSender(admin), CompletionPermissionAsWritten("reload"))
    ensures var other := Player(id, name, {"playerdeadmanager.reload"}, world);
      SenderHas(PlayerSender(other), CompletionPermissionAsWritten("reload"))
      && !SenderHas(PlayerSender(other), RELOAD_PERMISSION)
  {
    assert "playerdeadmanager." + "reload" == "playerdeadmanager.reload";
    assert RELOAD_PERMISSION != "playerdeadmanager.reload" by {
      assert RELOAD_PERMISSION[18] == 'a' && "playerdeadmanager.reload"[18] == 'r';
    }
  }

  /** Corrected: for each sub-command that checks a permission, the offer asks for that same permission. */
  lemma OfferMatchesCommand()
    ensures CompletionPermission("reload") == RELOAD_PERMISSION
    ensures CompletionPermission("cleanup") == CLEANUP_PERMISSION
    ensures CompletionPermission("list") == LIST_PERMISSION
    ensures CompletionPermission("gui") == GUI_PERMISSION
    ensures CompletionPermission("teleport") == TELEPORT_COMMAND_PERMISSION
    ensures forall sub :: sub != "reload" ==> CompletionPermission(sub) == CompletionPermissionAsWritten(sub)
  {
  }
}
