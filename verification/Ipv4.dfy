/** IPv4 addresses in dotted form, and subnet masks. */
module Ipv4 {
  import opened Options
  import opened Text

  const ALL: nat := 0x1_0000_0000

  // ---------------------------------------------------------------- dotted form

  function Digit(d: nat): char
    requires d < 10
  {
    (48 + d) as char
  }

  function FormatOctet(n: nat): (r: string)
    requires n < 256
    ensures 1 <= |r| <= 3 && forall i :: 0 <= i < |r| ==> '0' <= r[i] <= '9'
  {
    if n < 10 then [Digit(n)]
    else if n < 100 then [Digit(n / 10), Digit(n % 10)]
    else [Digit(n / 100), Digit(n / 10 % 10), Digit(n % 10)]
  }

  function DigitValue(c: char): nat
    requires '0' <= c <= '9'
  {
    c as int - 48
  }

  /** One to three digits, no leading zero, at most 255. */
  function ParseOctet(s: string): (r: Option<nat>)
    ensures r.Some? ==> r.value < 256
  {
    if !(1 <= |s| <= 3) || !(forall i :: 0 <= i < |s| ==> '0' <= s[i] <= '9') then None
    else if s != "0" && s[0] == '0' then None
    else
      var v := if |s| == 1 then DigitValue(s[0])
               else if |s| == 2 then 10 * DigitValue(s[0]) + DigitValue(s[1])
               else 100 * DigitValue(s[0]) + 10 * DigitValue(s[1]) + DigitValue(s[2]);
      if v > 255 then None else Some(v)
  }

  function Octet(n: nat, i: nat): (r: nat)
    requires n < ALL && i < 4
    ensures r < 256
  {
    if i == 0 then n / 16777216 else if i == 1 then n / 65536 % 256 else if i == 2 then n / 256 % 256 else n % 256
  }

  function Compose(a: nat, b: nat, c: nat, d: nat): (n: nat)
    requires a < 256 && b < 256 && c < 256 && d < 256
    ensures n < ALL
  {
    16777216 * a + 65536 * b + 256 * c + d
  }

  function FormatParts(n: nat): (r: seq<string>)
    requires n < ALL
    ensures |r| == 4
  {
    [FormatOctet(Octet(n, 0)), FormatOctet(Octet(n, 1)), FormatOctet(Octet(n, 2)), FormatOctet(Octet(n, 3))]
  }

  function Format(n: nat): string
    requires n < ALL
  {
    Join(FormatParts(n), '.')
  }

  function Parse(s: string): (r: Option<nat>)
    ensures r.Some? ==> r.value < ALL
  {
    var parts := Split(s, '.');
    if |parts| != 4 then None
    else
      var a, b, c, d := ParseOctet(parts[0]), ParseOctet(parts[1]), ParseOctet(parts[2]), ParseOctet(parts[3]);
      if a.None? || b.None? || c.None? || d.None? then None else Some(Compose(a.value, b.value, c.value, d.value))
  }

  /** The decimal digits, without a zero in front. */
  lemma OctetText(n: nat)
    requires n < 256
    ensures var s := FormatOctet(n);
            && (forall i :: 0 <= i < |s| ==> '0' <= s[i] <= '9') && (n >= 10 ==> s[0] != '0')
            && (n < 10 ==> |s| == 1 && n == s[0] as int - 48)
            && (10 <= n < 100 ==> |s| == 2 && n == 10 * (s[0] as int - 48) + (s[1] as int - 48))
            && (100 <= n ==>
                  |s| == 3 && n == 100 * (s[0] as int - 48) + 10 * (s[1] as int - 48) + (s[2] as int - 48))
  {
    assert n == 100 * (n / 100) + 10 * (n / 10 % 10) + n % 10;
  }

  lemma OctetRoundTrip(n: nat)
    requires n < 256
    ensures ParseOctet(FormatOctet(n)) == Some(n)
  {
  }

  lemma DigitOfValue(c: char)
    requires '0' <= c <= '9'
    ensures Digit(DigitValue(c)) == c
  {
  }

  lemma TwoDigits(x: nat, y: nat)
    requires x < 10 && y < 10
    ensures (10 * x + y) / 10 == x && (10 * x + y) % 10 == y
  {
  }

  lemma ThreeDigits(x: nat, y: nat, z: nat)
    requires x < 10 && y < 10 && z < 10
    ensures var v := 100 * x + 10 * y + z; v / 100 == x && v / 10 % 10 == y && v % 10 == z
  {
    assert 100 * x + 10 * y + z == 10 * (10 * x + y) + z;
  }

  lemma OctetIsCanonical(s: string)
    requires ParseOctet(s).Some?
    ensures FormatOctet(ParseOctet(s).value) == s
  {
    DigitOfValue(s[0]);
    if |s| == 1 {
      assert s == [s[0]];
    } else if |s| == 2 {
      DigitOfValue(s[1]);
      TwoDigits(DigitValue(s[0]), DigitValue(s[1]));
      assert s == [s[0], s[1]];
    } else {
      DigitOfValue(s[1]);
      DigitOfValue(s[2]);
      ThreeDigits(DigitValue(s[0]), DigitValue(s[1]), DigitValue(s[2]));
      assert s == [s[0], s[1], s[2]];
    }
  }

  lemma OctetsCompose(n: nat)
    requires n < ALL
    ensures Compose(Octet(n, 0), Octet(n, 1), Octet(n, 2), Octet(n, 3)) == n
  {
    assert n / 65536 == n / 256 / 256 && n / 16777216 == n / 65536 / 256;
  }

  lemma ComposedOctets(a: nat, b: nat, c: nat, d: nat)
    requires a < 256 && b < 256 && c < 256 && d < 256
    ensures var n := Compose(a, b, c, d); Octet(n, 0) == a && Octet(n, 1) == b && Octet(n, 2) == c && Octet(n, 3) == d
  {
    var n := Compose(a, b, c, d);
    assert n / 256 == 65536 * a + 256 * b + c;
    assert n / 65536 == 256 * a + b;
    assert n / 16777216 == a;
  }

  /** Every address is read back from its dotted form. */
  lemma ParseFormat(n: nat)
    requires n < ALL
    ensures Parse(Format(n)) == Some(n)
  {
    SplitJoin(FormatParts(n), '.');
    forall i: nat | i < 4 ensures ParseOctet(FormatOctet(Octet(n, i))) == Some(Octet(n, i)) {
      OctetRoundTrip(Octet(n, i));
    }
    OctetsCompose(n);
  }

  /** The four octets, the highest one first, with dots between them. */
  lemma FormatMeans(a: nat, b: nat, c: nat, d: nat)
    requires a < 256 && b < 256 && c < 256 && d < 256
    ensures 16777216 * a + 65536 * b + 256 * c + d < 0x1_0000_0000
    ensures Format(16777216 * a + 65536 * b + 256 * c + d) ==
            FormatOctet(a) + ("." + (FormatOctet(b) + ("." + (FormatOctet(c) + ("." + FormatOctet(d))))))
  {
    ComposedOctets(a, b, c, d);
    var p, q, r, s := FormatOctet(a), FormatOctet(b), FormatOctet(c), FormatOctet(d);
    assert [p, q, r, s][1..] == [q, r, s] && [q, r, s][1..] == [r, s] && [r, s][1..] == [s];
    assert Join([s], '.') == s;
    assert Join([r, s], '.') == r + ("." + s);
    assert Join([q, r, s], '.') == q + ("." + (r + ("." + s)));
  }

  /** Only the canonical dotted form is accepted, so equal addresses are equal texts. */
  lemma FormatParse(s: string)
    requires Parse(s).Some?
    ensures Format(Parse(s).value) == s
  {
    var parts := Split(s, '.');
    forall i: nat | i < 4 ensures FormatOctet(ParseOctet(parts[i]).value) == parts[i] {
      OctetIsCanonical(parts[i]);
    }
    ComposedOctets(ParseOctet(parts[0]).value, ParseOctet(parts[1]).value,
                   ParseOctet(parts[2]).value, ParseOctet(parts[3]).value);
    assert FormatParts(Parse(s).value) == parts;
    JoinSplit(s, '.');
  }

  lemma JoinFirst(parts: seq<string>, sep: char)
    requires |parts| >= 1 && parts[0] != []
    ensures Join(parts, sep) != [] && Join(parts, sep)[0] == parts[0][0]
  {
  }

  lemma {:induction false} JoinLast(parts: seq<string>, sep: char)
    requires |parts| >= 1 && parts[|parts| - 1] != []
    ensures var s, last := Join(parts, sep), parts[|parts| - 1]; s != [] && s[|s| - 1] == last[|last| - 1]
  {
    if |parts| > 1 {
      JoinLast(parts[1..], sep);
    }
  }

  lemma FormatIsStripped(n: nat)
    requires n < ALL
    ensures Strip(Format(n)) == Format(n)
  {
    JoinFirst(FormatParts(n), '.');
    JoinLast(FormatParts(n), '.');
    StripIsIdentity(Format(n));
  }

  // ---------------------------------------------------------------- masks

  function Pow2(k: nat): (r: nat)
    ensures r >= 1
  {
    if k == 0 then 1 else 2 * Pow2(k - 1)
  }

  const WIDTH: nat := 32

  /** `k` binary digits of `n`. */
  function Binary(n: nat, k: nat): (r: string)
    ensures |r| == k
  {
    if k == 0 then "" else Binary(n / 2, k - 1) + [if n % 2 == 1 then '1' else '0']
  }

  function BinaryValue(s: string): nat {
    if s == [] then 0 else 2 * BinaryValue(s[..|s| - 1]) + if s[|s| - 1] == '1' then 1 else 0
  }

  function CountOnes(s: string): (n: nat)
    ensures n <= |s|
  {
    if s == [] then 0 else CountOnes(s[..|s| - 1]) + if s[|s| - 1] == '1' then 1 else 0
  }

  function Ones(k: nat): (r: string)
    ensures |r| == k
  {
    if k == 0 then [] else Ones(k - 1) + "1"
  }

  function Zeros(k: nat): (r: string)
    ensures |r| == k
  {
    if k == 0 then [] else Zeros(k - 1) + "0"
  }

  /** Ones, then zeros. */
  predicate IsContiguous(binary: string) {
    binary == Ones(CountOnes(binary)) + Zeros(|binary| - CountOnes(binary))
  }

  predicate IsContiguousMask(mask: string) {
    var packed := Parse(mask);
    packed.Some? && IsContiguous(Binary(packed.value, WIDTH))
  }

  function MaskToPrefix(mask: string): Option<nat> {
    if IsContiguousMask(mask) then Some(CountOnes(Binary(Parse(mask).value, WIDTH))) else None
  }

  /** All ones, less the ones shifted out. */
  function MaskNumber(prefix: nat, width: nat): (r: nat)
    requires prefix <= width
    ensures r < Pow2(width)
  {
    Pow2Monotone(width - prefix, width);
    Pow2(width) - Pow2(width - prefix)
  }

  function Netmask(prefix: nat): (r: nat)
    requires prefix <= WIDTH
    ensures r < ALL
  {
    Pow2Thirty2();
    MaskNumber(prefix, WIDTH)
  }

  function PrefixToMask(prefix: int): Option<string> {
    if 0 <= prefix <= WIDTH then Some(Format(Netmask(prefix))) else None
  }

  lemma Pow2Thirty2()
    ensures Pow2(WIDTH) == ALL
  {
    assert Pow2(8) == 256;
    assert Pow2(16) == 256 * Pow2(8);
    assert Pow2(24) == 256 * Pow2(16);
    assert Pow2(32) == 256 * Pow2(24);
  }

  lemma {:induction false} Pow2Monotone(j: nat, k: nat)
    requires j <= k
    ensures Pow2(j) <= Pow2(k)
  {
    if j < k {
      Pow2Monotone(j, k - 1);
    }
  }

  lemma {:induction false} BinaryRoundTrip(n: nat, k: nat)
    requires n < Pow2(k)
    ensures BinaryValue(Binary(n, k)) == n
  {
    if k > 0 {
      BinaryRoundTrip(n / 2, k - 1);
      assert Binary(n, k)[..k - 1] == Binary(n / 2, k - 1);
    }
  }

  predicate IsBinary(s: string) { forall i :: 0 <= i < |s| ==> s[i] == '0' || s[i] == '1' }

  lemma {:induction false} ValueRoundTrip(s: string)
    requires IsBinary(s)
    ensures Binary(BinaryValue(s), |s|) == s
  {
    if s != [] {
      ValueRoundTrip(s[..|s| - 1]);
      assert s == s[..|s| - 1] + [s[|s| - 1]];
    }
  }

  lemma {:induction false} OneMore(s: string)
    requires IsBinary(s)
    ensures IsBinary(s + "1") && CountOnes(s + "1") == CountOnes(s) + 1
    ensures BinaryValue(s + "1") == 2 * BinaryValue(s) + 1
  {
    assert (s + "1")[..|s|] == s;
  }

  lemma {:induction false} ZeroMore(s: string)
    requires IsBinary(s)
    ensures IsBinary(s + "0") && CountOnes(s + "0") == CountOnes(s) && BinaryValue(s + "0") == 2 * BinaryValue(s)
  {
    assert (s + "0")[..|s|] == s;
  }

  lemma {:induction false} OnesOnly(c: nat)
    ensures IsBinary(Ones(c)) && CountOnes(Ones(c)) == c && BinaryValue(Ones(c)) == Pow2(c) - 1
  {
    if c > 0 {
      OnesOnly(c - 1);
      OneMore(Ones(c - 1));
    }
  }

  lemma {:induction false} DoublePowers(c: nat, z: nat)
    requires z > 0
    ensures Pow2(c + z) - Pow2(z) == 2 * (Pow2(c + z - 1) - Pow2(z - 1))
  {
  }

  lemma {:induction false} OnesThenZeros(c: nat, z: nat)
    ensures var s := Ones(c) + Zeros(z);
            IsBinary(s) && CountOnes(s) == c && BinaryValue(s) == Pow2(c + z) - Pow2(z)
  {
    var s := Ones(c) + Zeros(z);
    if z == 0 {
      OnesOnly(c);
      assert s == Ones(c);
    } else {
      var front := Ones(c) + Zeros(z - 1);
      OnesThenZeros(c, z - 1);
      ZeroMore(front);
      assert s == front + "0";
      DoublePowers(c, z);
    }
  }

  lemma ContiguousCount(c: nat, z: nat)
    ensures IsContiguous(Ones(c) + Zeros(z)) && CountOnes(Ones(c) + Zeros(z)) == c
  {
    OnesThenZeros(c, z);
    ContiguousIf(Ones(c) + Zeros(z), c, z);
  }

  lemma ContiguousIf(s: string, c: nat, z: nat)
    requires s == Ones(c) + Zeros(z) && CountOnes(s) == c
    ensures IsContiguous(s)
  {
    assert |s| - c == z;
  }

  lemma MaskDigits(c: nat, z: nat)
    ensures Binary(MaskNumber(c, c + z), c + z) == Ones(c) + Zeros(z)
  {
    OnesThenZeros(c, z);
    ValueRoundTrip(Ones(c) + Zeros(z));
  }

  /** The binary digits of a mask of any width are ones, then zeros. */
  lemma MaskIsContiguous(c: nat, z: nat)
    ensures var b := Binary(MaskNumber(c, c + z), c + z); IsContiguous(b) && CountOnes(b) == c
  {
    MaskDigits(c, z);
    ContiguousCount(c, z);
  }

  /** A number whose digits are ones, then zeros, is a mask. */
  lemma ContiguousIsMask(n: nat, width: nat)
    requires n < Pow2(width) && IsContiguous(Binary(n, width))
    ensures n == MaskNumber(CountOnes(Binary(n, width)), width)
  {
    var ones := CountOnes(Binary(n, width));
    BinaryRoundTrip(n, width);
    OnesThenZeros(ones, width - ones);
    assert ones + (width - ones) == width;
  }

  /** Converting a prefix to a mask and back gives the prefix. */
  lemma PrefixRoundTrip(prefix: nat)
    requires prefix <= WIDTH
    ensures PrefixToMask(prefix).Some? && MaskToPrefix(PrefixToMask(prefix).value) == Some(prefix)
  {
    MaskIsContiguous(prefix, WIDTH - prefix);
    ParseFormat(Netmask(prefix));
  }

  /** A text is a mask with that prefix only if it is the very text made from the prefix. */
  lemma MaskRoundTrip(mask: string)
    requires MaskToPrefix(mask).Some?
    ensures MaskToPrefix(mask).value <= WIDTH && PrefixToMask(MaskToPrefix(mask).value) == Some(mask)
  {
    Pow2Thirty2();
    ContiguousIsMask(Parse(mask).value, WIDTH);
    FormatParse(mask);
  }

  // ---------------------------------------------------------------- subnets

  function Size(prefix: nat): (r: nat)
    requires prefix <= WIDTH
    ensures r >= 1
  {
    Pow2(WIDTH - prefix)
  }

  lemma SizeMeans(prefix: nat)
    requires prefix <= 32
    ensures Size(32) == 1 && (prefix < 32 ==> Size(prefix) == 2 * Size(prefix + 1))
  {
  }

  /** A netmask and the size of its subnet make up all addresses. */
  lemma NetmaskMeans(prefix: nat)
    requires prefix <= WIDTH
    ensures Netmask(prefix) + Size(prefix) == 0x1_0000_0000
  {
    Pow2Thirty2();
  }

  /** First and last address of a subnet, and what lies in it, by remainders and quotients. */
  lemma SubnetMeans(g: nat, a: nat, prefix: nat)
    requires prefix <= WIDTH
    ensures a == NetworkAddress(a, prefix) <==> a % Size(prefix) == 0
    ensures a == BroadcastAddress(a, prefix) <==> a % Size(prefix) == Size(prefix) - 1
    ensures InNetwork(g, a, prefix) <==> g / Size(prefix) == a / Size(prefix)
    ensures InNetwork(g, a, prefix) ==>
              && (g == NetworkAddress(a, prefix) <==> g % Size(prefix) == 0)
              && (g == BroadcastAddress(a, prefix) <==> g % Size(prefix) == Size(prefix) - 1)
  {
    Quotients(g, a, Size(prefix));
  }

  lemma Quotients(g: nat, a: nat, s: nat)
    requires s >= 1
    ensures a - a % s <= g < a - a % s + s <==> g / s == a / s
    ensures g / s == a / s ==> g - g % s == a - a % s
  {
    var q, r := a / s, g / s;
    assert a == q * s + a % s && g == r * s + g % s;
    if a - a % s <= g < a - a % s + s {
      assert (r - q) * s == r * s - q * s;
      SmallMultiple(r - q, s);
    }
  }

  lemma RemainderAtMost(a: nat, s: nat)
    requires s >= 1
    ensures 0 <= a % s <= a
  {
    if a < s {
      assert a % s == a;
    }
  }

  function NetworkAddress(a: nat, prefix: nat): nat
    requires prefix <= WIDTH
  {
    var size := Size(prefix);
    RemainderAtMost(a, size);
    a - a % size
  }

  function BroadcastAddress(a: nat, prefix: nat): nat
    requires prefix <= WIDTH
  {
    NetworkAddress(a, prefix) + Size(prefix) - 1
  }

  predicate InNetwork(g: nat, a: nat, prefix: nat)
    requires prefix <= WIDTH
  {
    NetworkAddress(a, prefix) <= g <= BroadcastAddress(a, prefix)
  }

  lemma LargeMultiple(d: int, s: int)
    requires d >= 1 && s >= 0
    ensures d * s >= s && (-d) * s <= -s
  {
    assert d * s == s + (d - 1) * s;
  }

  lemma SmallMultiple(d: int, s: int)
    requires -s < d * s < s
    ensures d == 0
  {
    if d >= 1 {
      LargeMultiple(d, s);
    } else if d <= -1 {
      LargeMultiple(-d, s);
    }
  }

  /** Two addresses lie in one subnet exactly when their network addresses agree. */
  lemma SameSubnet(g: nat, a: nat, prefix: nat)
    requires prefix <= WIDTH
    ensures InNetwork(g, a, prefix) <==> NetworkAddress(g, prefix) == NetworkAddress(a, prefix)
  {
    var s := Size(prefix);
    Blocks(g, a, s);
  }

  lemma Blocks(g: nat, a: nat, s: nat)
    requires s >= 1
    ensures a - a % s <= g < a - a % s + s <==> g - g % s == a - a % s
  {
    Quotients(g, a, s);
    if g - g % s == a - a % s {
      assert g % s < s;
    }
  }

  /** A subnet with an address that is neither its first nor its last has at least four. */
  lemma HostNeedsRoom(a: nat, prefix: nat)
    requires prefix <= WIDTH && a != NetworkAddress(a, prefix) && a != BroadcastAddress(a, prefix)
    ensures prefix <= 30
  {
    assert Size(32) == 1 && Size(31) == 2;
  }
}
