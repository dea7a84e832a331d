/**
 * Identity of a storage node: its address and its two ports, as the naming
 * server records it on registration. Equality of these records decides every
 * `contains` test on the registered-storage list and on a file's replica list.
 */
module Storage {

  /** A registered storage node: client-facing port and command port. */
  datatype StorageInfo = StorageInfo(serverIp: string, clientPort: int, commandPort: int)

  /** One (address, port) stub; the naming server keeps client and command stubs as these. */
  datatype ServerInfo = ServerInfo(serverIp: string, serverPort: int)

  /** The argument of `equals`: any Java object, which may or may not be a StorageInfo. */
  datatype JavaObject = StorageObject(info: StorageInfo) | OtherObject | Null

  /**
   * `equals`: false for anything that is not a StorageInfo, otherwise a
   * field-wise comparison. It coincides with value equality of the record,
   * which is what lets the model use `in` for the Java `contains` calls.
   */
  function Equals(self: StorageInfo, other: JavaObject): (r: bool)
    ensures r <==> other == StorageObject(self)
  {
    match other
    case StorageObject(that) =>
      self.serverIp == that.serverIp && self.clientPort == that.clientPort
      && self.commandPort == that.commandPort
    case OtherObject => false
    case Null => false
  }

  const TWO_TO_THE_31: int := 0x8000_0000
  const TWO_TO_THE_32: int := 0x1_0000_0000

  /** Java `int` arithmetic: reduce to the signed 32-bit range with wrap-around. */
  function Wrap32(x: int): (r: int)
    ensures -TWO_TO_THE_31 <= r < TWO_TO_THE_31
    ensures (r - x) % TWO_TO_THE_32 == 0
  {
    (x + TWO_TO_THE_31) % TWO_TO_THE_32 - TWO_TO_THE_31
  }

  const BMP_END: int := 0x1_0000

  /**
   * A character as Java stores it: one UTF-16 code unit inside the Basic
   * Multilingual Plane, a high and a low surrogate above it.
   */
  function Utf16(c: char): (u: seq<int>)
    ensures |u| == (if c as int < BMP_END then 1 else 2)
    ensures forall i | 0 <= i < |u| :: 0 <= u[i] < BMP_END
  {
    var v := c as int;
    if v < BMP_END then [v]
    else [0xD800 + (v - BMP_END) / 0x400, 0xDC00 + (v - BMP_END) % 0x400]
  }

  /** The UTF-16 code units of a string, in order. */
  function Utf16Units(s: string): (u: seq<int>)
    ensures |s| <= |u|
    decreases |s|
  {
    if s == [] then [] else Utf16Units(s[..|s| - 1]) + Utf16(s[|s| - 1])
  }

  /** A string of Basic Multilingual Plane characters has one code unit per character. */
  lemma {:induction false} Utf16UnitsOfBmp(s: string)
    requires forall i | 0 <= i < |s| :: s[i] as int < BMP_END
    ensures Utf16Units(s) == seq(|s|, i requires 0 <= i < |s| => s[i] as int)
    decreases |s|
  {
    if s != [] {
      Utf16UnitsOfBmp(s[..|s| - 1]);
    }
  }

  /** h = 31 * h + unit over the code units, in 32-bit arithmetic. */
  function UnitsHash(u: seq<int>): (h: int)
    ensures -TWO_TO_THE_31 <= h < TWO_TO_THE_31
    decreases |u|
  {
    if u == [] then 0 else Wrap32(31 * UnitsHash(u[..|u| - 1]) + u[|u| - 1])
  }

  /** `String.hashCode`: the hash of the string's UTF-16 code units. */
  function StringHash(s: string): (h: int)
    ensures -TWO_TO_THE_31 <= h < TWO_TO_THE_31
  {
    UnitsHash(Utf16Units(s))
  }

  /** A character above the Basic Multilingual Plane hashes as its two surrogates. */
  lemma SupplementaryHash()
    ensures Utf16Units("\U{1F600}") == [0xD83D, 0xDE00]
    ensures StringHash("\U{1F600}") == 31 * 0xD83D + 0xDE00
  {
    var u := Utf16Units("\U{1F600}");
    assert "\U{1F600}"[..0] == [];
    assert u == [0xD83D, 0xDE00];
    assert u[..1] == [0xD83D] && u[..1][..0] == [];
    assert UnitsHash(u[..1]) == 0xD83D;
  }

  /** `hashCode`: reads only the address and the client port, and is a Java `int`. */
  function HashCode(self: StorageInfo): (h: int)
    ensures -TWO_TO_THE_31 <= h < TWO_TO_THE_31
    ensures (h - (StringHash(self.serverIp) * 31 + self.clientPort)) % TWO_TO_THE_32 == 0
  {
    Wrap32(StringHash(self.serverIp) * 31 + self.clientPort)
  }

  lemma EqualsReflexive(a: StorageInfo)
    ensures Equals(a, StorageObject(a))
  {
  }

  lemma EqualsSymmetric(a: StorageInfo, b: StorageInfo)
    ensures Equals(a, StorageObject(b)) == Equals(b, StorageObject(a))
  {
  }

  lemma EqualsTransitive(a: StorageInfo, b: StorageInfo, c: StorageInfo)
    requires Equals(a, StorageObject(b)) && Equals(b, StorageObject(c))
    ensures Equals(a, StorageObject(c))
  {
  }

  /** Nothing that is not a StorageInfo is ever equal to one. */
  lemma EqualsOnlyStorageInfo(a: StorageInfo, o: JavaObject)
    requires !o.StorageObject?
    ensures !Equals(a, o)
  {
  }

  /** The hash is consistent with `equals`. */
  lemma HashConsistent(a: StorageInfo, b: StorageInfo)
    requires Equals(a, StorageObject(b))
    ensures HashCode(a) == HashCode(b)
  {
  }

  /** The hash ignores the command port, so it is not injective: two unequal records collide. */
  lemma HashNotInjective(a: StorageInfo, port: int)
    requires port != a.commandPort
    ensures !Equals(a, StorageObject(a.(commandPort := port)))
    ensures HashCode(a) == HashCode(a.(commandPort := port))
  {
  }

  /** A concrete collision: the same address and client port, different command ports. */
  lemma HashCollisionExample()
    ensures var a := StorageInfo("10.0.0.1", 7000, 7001);
            var b := StorageInfo("10.0.0.1", 7000, 7002);
            !Equals(a, StorageObject(b)) && HashCode(a) == HashCode(b)
  {
  }
}
