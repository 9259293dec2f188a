/**
 The dummy subnets 0.x.y.0/24, derived from a name by 32-bit FNV-1a of which 16 bits are kept: when two names
 can share a subnet, and when they cannot.
 */
module Subnet {
  import opened Decimal
  import opened Text

  const OFFSET_BASIS: bv32 := 2166136261

  /** One step: exclusive-or with the byte, then multiplication by the 32-bit FNV prime. */
  function HashByte(h: bv32, b: bv8): bv32 {
    (h ^ (b as bv32)) * 16777619
  }

  /** FNV-1a over the bytes of a name. */
  function Hash(name: seq<bv8>): bv32 {
    if name == [] then OFFSET_BASIS else HashByte(Hash(name[..|name| - 1]), name[|name| - 1])
  }

  /** The two octets of the address that are taken from the hash. */
  function Second(h: bv32): bv8 {
    (h % 256) as bv8
  }

  function Third(h: bv32): bv8 {
    ((h >> 8) % 256) as bv8
  }

  function Octet(b: bv8): (n: nat)
    ensures n < 256
  {
    b as nat
  }

  function Printed(second: nat, third: nat): string {
    "0." + Itoa(second) + "." + Itoa(third) + ".0/24"
  }

  function SubnetOf(name: seq<bv8>): string {
    Printed(Octet(Second(Hash(name))), Octet(Third(Hash(name))))
  }

  /** The subnet of a name, with the hash fed byte by byte. */
  method GenerateDummySubnet(name: seq<bv8>) returns (subnet: string)
    ensures subnet == SubnetOf(name)
  {
    var h := OFFSET_BASIS;
    for i := 0 to |name|
      invariant h == Hash(name[..i])
    {
      h := HashByte(h, name[i]);
      assert name[..i + 1][..i] == name[..i];
    }
    assert name[..|name|] == name;
    subnet := Printed(Octet(Second(h)), Octet(Third(h)));
  }

  // ---------- the text determines the octets ----------

  lemma DigitsHaveNoDot(n: nat)
    ensures Free(Itoa(n), '.')
  {
    var s := Itoa(n);
    forall i | 0 <= i < |s| ensures s[i] != '.' {
      assert IsDigit(s[i]);
    }
  }

  lemma PrintedPieces(second: nat, third: nat)
    ensures Split(Printed(second, third), '.') == ["0"] + ([Itoa(second)] + ([Itoa(third)] + ["0/24"]))
  {
    var s, t := Itoa(second), Itoa(third);
    DigitsHaveNoDot(second);
    DigitsHaveNoDot(third);
    PrintedParts(s, t);
    SplitConcat("0", '.', s + ['.'] + (t + ['.'] + "0/24"));
    SplitConcat(s, '.', t + ['.'] + "0/24");
    SplitConcat(t, '.', "0/24");
    SplitFree("0", '.');
    SplitFree(s, '.');
    SplitFree(t, '.');
    SplitFree("0/24", '.');
  }

  lemma PrintedParts(s: string, t: string)
    ensures "0." + s + "." + t + ".0/24" == "0" + ['.'] + (s + ['.'] + (t + ['.'] + "0/24"))
  {
  }

  lemma OctetInjective(b: bv8, c: bv8)
    ensures Octet(b) == Octet(c) <==> b == c
  {
  }

  lemma PrintedInjective(second: nat, third: nat, second': nat, third': nat)
    ensures Printed(second, third) == Printed(second', third') <==> second == second' && third == third'
  {
    if Printed(second, third) == Printed(second', third') {
      PrintedPieces(second, third);
      PrintedPieces(second', third');
      var pieces := Split(Printed(second, third), '.');
      assert pieces[1] == Itoa(second) == Itoa(second') && pieces[2] == Itoa(third) == Itoa(third');
      ItoaInjective(second, second');
      ItoaInjective(third, third');
    }
  }

  lemma SubnetTellsOctets(u: seq<bv8>, v: seq<bv8>)
    ensures SubnetOf(u) == SubnetOf(v) <==> Second(Hash(u)) == Second(Hash(v)) && Third(Hash(u)) == Third(Hash(v))
  {
    var x, y, x', y' := Second(Hash(u)), Third(Hash(u)), Second(Hash(v)), Third(Hash(v));
    OctetInjective(x, x');
    OctetInjective(y, y');
    PrintedInjective(Octet(x), Octet(y), Octet(x'), Octet(y'));
  }

  // ---------- addresses ----------

  /** `address`, as a 32-bit number, lies in the block of 256 addresses that a text "x.y.z.0/24" denotes. */
  predicate InBlock(address: nat, text: string) {
    var p := Split(text, '.');
    && |p| == 4 && AllDigits(p[0]) && AllDigits(p[1]) && AllDigits(p[2]) && p[3] == "0/24"
    && var first := 0x100_0000 * Atoi(p[0]) + 0x1_0000 * Atoi(p[1]) + 0x100 * Atoi(p[2]);
       first <= address < first + 0x100
  }

  /** `address` lies in the subnet that is printed for the name. */
  predicate InSubnet(address: nat, name: seq<bv8>) {
    InBlock(address, SubnetOf(name))
  }

  lemma PrintedBlock(address: nat, second: nat, third: nat)
    ensures InBlock(address, Printed(second, third)) <==>
            65536 * second + 256 * third <= address < 65536 * second + 256 * third + 256
  {
    PrintedPieces(second, third);
    var p := Split(Printed(second, third), '.');
    assert p[0] == "0" && p[1] == Itoa(second) && p[2] == Itoa(third) && p[3] == "0/24";
    AtoiItoa(second);
    AtoiItoa(third);
    ZeroIsZero();
  }

  lemma ZeroIsZero()
    ensures AllDigits("0") && Atoi("0") == 0
  {
    AtoiItoa(0);
    assert Itoa(0) == "0";
  }

  lemma BlocksDisjoint(address: nat, x: nat, y: nat, x': nat, y': nat)
    requires x < 256 && y < 256 && x' < 256 && y' < 256
    requires InBlock(address, Printed(x, y)) && InBlock(address, Printed(x', y'))
    ensures x == x' && y == y'
  {
    PrintedBlock(address, x, y);
    PrintedBlock(address, x', y');
  }

  /**
   Subnets are either equal or share no address, and all of them lie in 0.0.0.0/8 (section 2.2.2 of RFC 6890).
   */
  lemma SubnetsEqualOrDisjoint(u: seq<bv8>, v: seq<bv8>, address: nat)
    requires InSubnet(address, u)
    ensures address < 0x100_0000
    ensures InSubnet(address, v) <==> SubnetOf(u) == SubnetOf(v)
  {
    var x, y := Octet(Second(Hash(u))), Octet(Third(Hash(u)));
    var x', y' := Octet(Second(Hash(v))), Octet(Third(Hash(v)));
    PrintedBlock(address, x, y);
    PrintedInjective(x, y, x', y');
    if InSubnet(address, v) {
      BlocksDisjoint(address, x, y, x', y');
    }
  }

  // ---------- the 16-bit automaton ----------

  function Low(h: bv32): bv16 {
    (h & 0xFFFF) as bv16
  }

  /** The prime is 403 modulo 65536, where 17563 is its inverse. */
  function TimesPrime(x: bv16): (y: bv16)
    ensures OverPrime(y) == x
  {
    x * 403
  }

  function OverPrime(y: bv16): bv16 {
    y * 17563
  }

  function ShortHashByte(x: bv16, b: bv8): bv16 {
    TimesPrime(x ^ (b as bv16))
  }

  /** FNV-1a with a 16-bit state. */
  function ShortHash(name: seq<bv8>): bv16 {
    if name == [] then Low(OFFSET_BASIS) else ShortHashByte(ShortHash(name[..|name| - 1]), name[|name| - 1])
  }

  lemma XorLow(h: bv32, b: bv8)
    ensures Low(h ^ (b as bv32)) == Low(h) ^ (b as bv16)
  {
  }

  lemma ProductOfSum(a: bv32, b: bv32)
    ensures (a + b) * 16777619 == a * 16777619 + b * 16777619
  {
  }

  lemma Halves(x: bv32)
    ensures x == (x & 0xFFFF0000) + (Low(x) as bv32)
  {
  }

  lemma HighPartVanishes(x: bv32)
    ensures ((x & 0xFFFF0000) * 16777619) & 0xFFFF == 0
  {
  }

  lemma LowOfSum(a: bv32, b: bv32)
    requires a & 0xFFFF == 0
    ensures Low(a + b) == Low(b)
  {
  }

  lemma LowProduct(x: bv16)
    ensures Low((x as bv32) * 16777619) == x * 403
  {
  }

  lemma LowOfProduct(x: bv32)
    ensures Low(x * 16777619) == Low(x) * 403
  {
    var high, low := x & 0xFFFF0000, Low(x) as bv32;
    Halves(x);
    ProductOfSum(high, low);
    HighPartVanishes(x);
    LowOfSum(high * 16777619, low * 16777619);
    LowProduct(Low(x));
  }

  lemma HashByteLow(h: bv32, b: bv8)
    ensures Low(HashByte(h, b)) == ShortHashByte(Low(h), b)
  {
    XorLow(h, b);
    LowOfProduct(h ^ (b as bv32));
  }

  /** The low half of the hash evolves on its own: the upper 16 bits never matter. */
  lemma {:induction false} LowIsShortHash(name: seq<bv8>)
    ensures Low(Hash(name)) == ShortHash(name)
  {
    if name == [] {
    } else {
      LowIsShortHash(name[..|name| - 1]);
      HashByteLow(Hash(name[..|name| - 1]), name[|name| - 1]);
    }
  }

  function LowByte(x: bv16): bv8 {
    (x & 0xFF) as bv8
  }

  function HighByte(x: bv16): bv8 {
    (x >> 8) as bv8
  }

  lemma OctetsFromLow(h: bv32)
    ensures Second(h) == LowByte(Low(h)) && Third(h) == HighByte(Low(h))
  {
  }

  lemma LowFromOctets(x: bv16, y: bv16)
    requires LowByte(x) == LowByte(y) && HighByte(x) == HighByte(y)
    ensures x == y
  {
  }

  /** What is printed: the low half of the 16-bit state before the high half. */
  lemma SubnetText(name: seq<bv8>)
    ensures Split(SubnetOf(name), '.') ==
            ["0"] + [Itoa(LowByte(ShortHash(name)) as nat)] + [Itoa(HighByte(ShortHash(name)) as nat)] + ["0/24"]
  {
    LowIsShortHash(name);
    OctetsFromLow(Hash(name));
    PrintedPieces(Octet(Second(Hash(name))), Octet(Third(Hash(name))));
  }

  /** Equality of the two octets is equality of the 16-bit state. */
  lemma OctetsAreLow(h: bv32, g: bv32)
    ensures Second(h) == Second(g) && Third(h) == Third(g) <==> Low(h) == Low(g)
  {
    OctetsFromLow(h);
    OctetsFromLow(g);
    if Second(h) == Second(g) && Third(h) == Third(g) {
      LowFromOctets(Low(h), Low(g));
    }
  }

  /** The subnet is a one-to-one rendering of the 16-bit state. */
  lemma SubnetIsShortHash(u: seq<bv8>, v: seq<bv8>)
    ensures SubnetOf(u) == SubnetOf(v) <==> ShortHash(u) == ShortHash(v)
  {
    var h, g := Hash(u), Hash(v);
    LowIsShortHash(u);
    LowIsShortHash(v);
    OctetsAreLow(h, g);
    SubnetTellsOctets(u, v);
  }

  // ---------- common suffixes ----------

  lemma XorUndone(x: bv16, c: bv16, y: bv16)
    requires OverPrime(y) == x ^ c
    ensures OverPrime(y) ^ c == x
  {
  }

  lemma ProductUndone(x: bv16, b: bv8)
    ensures OverPrime(ShortHashByte(x, b)) == x ^ (b as bv16)
  {
  }

  lemma StepUndone(x: bv16, b: bv8)
    ensures OverPrime(ShortHashByte(x, b)) ^ (b as bv16) == x
  {
    ProductUndone(x, b);
    XorUndone(x, b as bv16, ShortHashByte(x, b));
  }

  /** A step of the automaton is injective, because it can be undone. */
  lemma ShortHashByteInjective(x: bv16, y: bv16, b: bv8)
    requires ShortHashByte(x, b) == ShortHashByte(y, b)
    ensures x == y
  {
    StepUndone(x, b);
    StepUndone(y, b);
  }

  /** Appending the same bytes to two names preserves both that their subnets collide and that they do not. */
  lemma {:induction false} CommonSuffix(u: seq<bv8>, v: seq<bv8>, suffix: seq<bv8>)
    ensures SubnetOf(u + suffix) == SubnetOf(v + suffix) <==> SubnetOf(u) == SubnetOf(v)
  {
    if suffix == [] {
      assert u + suffix == u && v + suffix == v;
    } else {
      var init, b := suffix[..|suffix| - 1], suffix[|suffix| - 1];
      CommonSuffix(u, v, init);
      SubnetIsShortHash(u + init, v + init);
      SubnetIsShortHash(u + suffix, v + suffix);
      assert (u + suffix)[..|u + suffix| - 1] == u + init;
      assert (v + suffix)[..|v + suffix| - 1] == v + init;
      if ShortHash(u + suffix) == ShortHash(v + suffix) {
        ShortHashByteInjective(ShortHash(u + init), ShortHash(v + init), b);
      }
    }
  }

  // ---------- names that differ in one byte ----------

  predicate DifferAt(u: seq<bv8>, v: seq<bv8>, i: nat) {
    && |u| == |v| && i < |u| && u[i] != v[i]
    && forall j :: 0 <= j < |u| && j != i ==> u[j] == v[j]
  }

  lemma SecondStepsApart(h: bv32, g: bv32, b: bv8)
    requires Second(h) != Second(g)
    ensures Second(HashByte(h, b)) != Second(HashByte(g, b))
  {
  }

  lemma SecondTellsBytes(h: bv32, b: bv8, c: bv8)
    requires b != c
    ensures Second(HashByte(h, b)) != Second(HashByte(h, c))
  {
  }

  /** The second octet alone tells such names apart. */
  lemma {:induction false} OneByteTellsApart(u: seq<bv8>, v: seq<bv8>, i: nat)
    requires DifferAt(u, v, i)
    ensures Second(Hash(u)) != Second(Hash(v))
  {
    var u', v' := u[..|u| - 1], v[..|v| - 1];
    if i == |u| - 1 {
      assert u' == v';
      SecondTellsBytes(Hash(u'), u[i], v[i]);
    } else {
      OneByteTellsApart(u', v', i);
      SecondStepsApart(Hash(u'), Hash(v'), u[|u| - 1]);
    }
  }

  /** Names of equal length that differ in exactly one byte get subnets without a common address. */
  lemma OneByteApart(u: seq<bv8>, v: seq<bv8>, i: nat)
    requires DifferAt(u, v, i)
    ensures SubnetOf(u) != SubnetOf(v)
    ensures forall address: nat :: InSubnet(address, u) ==> !InSubnet(address, v)
  {
    OneByteTellsApart(u, v, i);
    SubnetTellsOctets(u, v);
    forall address: nat | InSubnet(address, u) ensures !InSubnet(address, v) {
      SubnetsEqualOrDisjoint(u, v, address);
    }
  }

  // ---------- collisions exist ----------

  /** "client-", as bytes. */
  const CLIENT: seq<bv8> := [99, 108, 105, 101, 110, 116, 45]

  /** Hashing `u + [b]` from a known state. */
  lemma StateNext(u: seq<bv8>, b: bv8, state: bv16, next: bv16)
    requires ShortHash(u) == state && next == ShortHashByte(state, b)
    ensures ShortHash(u + [b]) == next
  {
    assert (u + [b])[..|u|] == u;
  }

  lemma ClientState()
    ensures ShortHash(CLIENT) == 58441
  {
    StateNext([], 99, 40389, 11346);
    assert [] + [99] == [99];
    StateNext([99], 108, 11346, 42394);
    StateNext([99] + [108], 105, 42394, 15753);
    StateNext([99] + [108] + [105], 101, 15753, 31364);
    StateNext([99] + [108] + [105] + [101], 110, 31364, 32350);
    StateNext([99] + [108] + [105] + [101] + [110], 116, 32350, 39966);
    StateNext([99] + [108] + [105] + [101] + [110] + [116], 45, 39966, 58441);
    assert CLIENT == [99] + [108] + [105] + [101] + [110] + [116] + [45];
  }

  /**
   The subnets do not keep all clients apart: "t7" and "a8p" share one, and so do they with any common ending.
   */
  lemma CollisionsExist(suffix: seq<bv8>)
    ensures SubnetOf(CLIENT + [116, 55] + suffix) == SubnetOf(CLIENT + [97, 56, 112] + suffix)
  {
    ClientState();
    StateNext(CLIENT, 116, 58441, 19463);
    StateNext(CLIENT + [116], 55, 19463, 61328);
    StateNext(CLIENT, 97, 58441, 11000);
    StateNext(CLIENT + [97], 56, 11000, 19520);
    StateNext(CLIENT + [97] + [56], 112, 19520, 61328);
    var u, v := CLIENT + [116, 55], CLIENT + [97, 56, 112];
    assert u == CLIENT + [116] + [55] && v == CLIENT + [97] + [56] + [112];
    SubnetIsShortHash(u, v);
    CommonSuffix(u, v, suffix);
  }

  lemma Numerals()
    ensures Itoa(144) == "144" && Itoa(239) == "239"
  {
    assert Itoa(1) == "1" && Itoa(14) == "14";
    assert Itoa(2) == "2" && Itoa(23) == "23";
  }

  /** For example, the subnet of "client-t7". */
  lemma SubnetExample()
    ensures SubnetOf(CLIENT + [116, 55]) == "0.144.239.0/24"
  {
    var name := CLIENT + [116, 55];
    ClientState();
    StateNext(CLIENT, 116, 58441, 19463);
    StateNext(CLIENT + [116], 55, 19463, 61328);
    assert name == CLIENT + [116] + [55];
    assert LowByte(61328) == 144 && HighByte(61328) == 239;
    LowIsShortHash(name);
    OctetsFromLow(Hash(name));
    Numerals();
    assert Second(Hash(name)) == 144 && Third(Hash(name)) == 239;
    assert SubnetOf(name) == Printed(144, 239);
    assert Printed(144, 239) == "0." + "144" + "." + "239" + ".0/24";
  }
}
