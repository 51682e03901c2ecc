/**
 * Values shared by every part of the tombstone model: optional and fallible
 * results, block positions and locations, the block materials the plugin
 * distinguishes, item stacks, and the Java integer and string conversions
 * the plugin relies on (truncating division, `String.valueOf`,
 * `Integer.parseInt`/`Long.parseLong` on ASCII digits).
 */
module Common {

  datatype Option<T> = None | Some(value: T)

  /** A database call that either returns a value or throws `SQLException`. */
  datatype Result<T> = Ok(value: T) | Err(error: Fault)

  datatype Fault = SqlFault | DeserializeFault

  /** Players are identified by the canonical text of their UUID. */
  type Uuid = string

  /** An online player: identity, display name, granted permissions and current world. */
  datatype Player = Player(id: Uuid, name: string, perms: set<string>, world: string)

  predicate HasPermission(p: Player, perm: string)
  {
    perm in p.perms
  }

  /** A block position: the world name and the integer block coordinates. */
  datatype Pos = Pos(world: string, x: int, y: int, z: int)

  /** A Bukkit `Location`: exact coordinates plus the view direction. */
  datatype Location = Location(world: string, x: real, y: real, z: real, yaw: real, pitch: real)

  /** `Location.getBlock()`: the block the location lies in. */
  function BlockOf(l: Location): (p: Pos)
    ensures p.world == l.world
    ensures p.x as real <= l.x < p.x as real + 1.0
    ensures p.y as real <= l.y < p.y as real + 1.0
    ensures p.z as real <= l.z < p.z as real + 1.0
  {
    Pos(l.world, l.x.Floor, l.y.Floor, l.z.Floor)
  }

  /** `Block.getLocation()`: the corner of the block, looking straight ahead. */
  function BlockLocation(p: Pos): (l: Location)
    ensures BlockOf(l) == p
  {
    Location(p.world, p.x as real, p.y as real, p.z as real, 0.0, 0.0)
  }

  /** `Location.clone().add(dx, dy, dz)` followed by `getBlock()`. */
  function Offset(p: Pos, dx: int, dy: int, dz: int): Pos
  {
    Pos(p.world, p.x + dx, p.y + dy, p.z + dz)
  }

  /**
   * The block materials the plugin tests for by name; every other material
   * is `OtherBlock` (tile-state ones such as barrels as `OtherTile`).
   */
  datatype Material =
    | Air | CaveAir | VoidAir
    | Water | Lava | TallGrass | Grass | Fern | DeadBush | Snow
    | Chest | PlayerHead | OtherTile(name: string)
    | Stone | OtherBlock(name: string)

  /** Bukkit `Material.isAir()`. */
  predicate IsAir(m: Material)
  {
    m == Air || m == CaveAir || m == VoidAir
  }

  /** Whether placing the material creates a tile state (which can carry tags). */
  predicate IsTileMaterial(m: Material)
  {
    m == Chest || m == PlayerHead || m.OtherTile?
  }

  /** Item metadata as far as the plugin reads it. */
  datatype ItemMeta = ItemMeta(displayName: Option<string>, customModelData: Option<int>)

  datatype ItemStack = ItemStack(material: Material, amount: int, meta: Option<ItemMeta>)

  /** Bukkit `ItemStack.isSimilar`: equal in everything except the amount. */
  predicate Similar(a: ItemStack, b: ItemStack)
  {
    a.material == b.material && a.meta == b.meta
  }

  /** An item that is neither null nor air. */
  predicate Present(item: Option<ItemStack>)
  {
    item.Some? && !IsAir(item.value.material)
  }

  // ---------------------------------------------------------------------
  // Java integer arithmetic

  const INT_MIN: int := -0x8000_0000
  const INT_MAX: int := 0x7FFF_FFFF
  const LONG_MIN: int := -0x8000_0000_0000_0000
  const LONG_MAX: int := 0x7FFF_FFFF_FFFF_FFFF

  /** Java `/` on integers with a positive divisor: rounds toward zero. */
  function JDiv(a: int, b: int): (q: int)
    requires b > 0
    ensures a >= 0 ==> q == a / b
    ensures a < 0 ==> q == -((-a) / b)
  {
    if a >= 0 then a / b else -((-a) / b)
  }

  /** Java `%` with a positive divisor: the remainder takes the sign of `a`. */
  function JRem(a: int, b: int): (r: int)
    requires b > 0
    ensures a == JDiv(a, b) * b + r
    ensures a >= 0 ==> 0 <= r < b
    ensures a < 0 ==> -b < r <= 0
  {
    a - JDiv(a, b) * b
  }

  /** 32-bit two's complement wrap-around of a mathematical integer. */
  function Wrap32(a: int): (r: int)
    ensures INT_MIN <= r <= INT_MAX
    ensures INT_MIN <= a <= INT_MAX ==> r == a
  {
    (a - INT_MIN) % 0x1_0000_0000 + INT_MIN
  }

  function Max(a: int, b: int): (m: int)
    ensures m >= a && m >= b && (m == a || m == b)
  {
    if a >= b then a else b
  }

  function Min(a: int, b: int): (m: int)
    ensures m <= a && m <= b && (m == a || m == b)
  {
    if a <= b then a else b
  }

  // ---------------------------------------------------------------------
  // Decimal text

  predicate IsDigit(c: char)
  {
    '0' <= c <= '9'
  }

  predicate AllDigits(s: string)
  {
    forall i :: 0 <= i < |s| ==> IsDigit(s[i])
  }

  function DigitChar(d: nat): char
    requires d < 10
  {
    ['0', '1', '2', '3', '4', '5', '6', '7', '8', '9'][d]
  }

  /** The value of a run of decimal digits. */
  function DigitsValue(s: string): nat
    requires AllDigits(s)
  {
    if |s| == 0 then 0 else DigitsValue(s[..|s| - 1]) * 10 + (s[|s| - 1] as int - '0' as int)
  }

  /** `String.valueOf` of a non-negative integer. */
  function NatToString(n: nat): (s: string)
    ensures |s| > 0
  {
    if n < 10 then [DigitChar(n)] else NatToString(n / 10) + [DigitChar(n % 10)]
  }

  /** `String.valueOf(int)` / `String.valueOf(long)`. */
  function IntToString(n: int): (s: string)
    ensures |s| > 0
  {
    if n < 0 then "-" + NatToString(-n) else NatToString(n)
  }

  /**
   * `Integer.parseInt` (bounds `INT_MIN..INT_MAX`) or `Long.parseLong`
   * (bounds `LONG_MIN..LONG_MAX`) on ASCII text: an optional sign, at least
   * one digit, and a value inside the bounds; `None` is the
   * `NumberFormatException`.
   */
  function ParseInteger(s: string, lo: int, hi: int): (r: Option<int>)
    ensures r.Some? ==> lo <= r.value <= hi
  {
    if |s| == 0 then None
    else if s[0] == '-' || s[0] == '+' then
      if |s| == 1 || !AllDigits(s[1..]) then None
      else
        var v: int := if s[0] == '-' then 0 - DigitsValue(s[1..]) as int else DigitsValue(s[1..]);
        if lo <= v <= hi then Some(v) else None
    else if !AllDigits(s) then None
    else
      var v := DigitsValue(s);
      if lo <= v <= hi then Some(v) else None
  }

  lemma {:induction false} NatToStringDigits(n: nat)
    ensures AllDigits(NatToString(n))
    ensures DigitsValue(NatToString(n)) == n
  {
    if n >= 10 {
      NatToStringDigits(n / 10);
      var s := NatToString(n / 10) + [DigitChar(n % 10)];
      assert s[..|s| - 1] == NatToString(n / 10);
    }
  }

  /** Parsing the decimal text of a number gives the number back. */
  lemma ParseIntToString(n: int, lo: int, hi: int)
    requires lo <= n <= hi
    ensures ParseInteger(IntToString(n), lo, hi) == Some(n)
  {
    if n < 0 {
      NatToStringDigits(-n);
      assert IntToString(n)[1..] == NatToString(-n);
    } else {
      NatToStringDigits(n);
    }
  }

  /** Every character is at most a space (what `String.trim()` removes). */
  predicate Blank(s: string)
  {
    forall i :: 0 <= i < |s| ==> s[i] <= ' '
  }

  predicate StartsWith(s: string, prefix: string)
  {
    |prefix| <= |s| && s[..|prefix|] == prefix
  }

  /** ASCII `toLowerCase`. */
  function LowerChar(c: char): char
  {
    if 'A' <= c <= 'Z' then (c as int + 32) as char else c
  }

  /** ASCII `toUpperCase`. */
  function UpperChar(c: char): char
  {
    if 'a' <= c <= 'z' then (c as int - 32) as char else c
  }

  function Upper(s: string): (r: string)
    ensures |r| == |s|
    ensures forall i :: 0 <= i < |s| ==> r[i] == UpperChar(s[i])
  {
    if |s| == 0 then [] else [UpperChar(s[0])] + Upper(s[1..])
  }

  function Lower(s: string): (r: string)
    ensures |r| == |s|
    ensures forall i :: 0 <= i < |s| ==> r[i] == LowerChar(s[i])
  {
    if |s| == 0 then [] else [LowerChar(s[0])] + Lower(s[1..])
  }
}
