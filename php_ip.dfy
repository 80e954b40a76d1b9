/**
 * The PHP network built-ins the core uses on IPv4 addresses:
 * `filter_var($s, FILTER_VALIDATE_IP)` restricted to IPv4, `ip2long` and
 * `long2ip`.
 */
module PhpIp {
  import opened PhpStrings

  /** An unsigned 32-bit number, the stored form of an IPv4 address. */
  type Ip32 = n: nat | n < 0x1_0000_0000

  /**
   * One dotted-quad part as FILTER_VALIDATE_IP accepts it: one to three
   * digits, at most 255, and no leading zero unless the part is "0".
   */
  predicate IsOctet(p: string)
  {
    1 <= |p| <= 3 && IsDigits(p) && (p[0] == '0' ==> |p| == 1) && DecimalValue(p) <= 255
  }

  /** `filter_var($s, FILTER_VALIDATE_IP)` succeeds on `s` as an IPv4 address. */
  predicate IsIpv4(s: string)
  {
    var parts := Split(s, '.');
    |parts| == 4 && IsOctet(parts[0]) && IsOctet(parts[1]) && IsOctet(parts[2]) && IsOctet(parts[3])
  }

  /** `ip2long`: the big-endian value of a valid dotted quad. */
  function Ip2Long(s: string): Ip32
    requires IsIpv4(s)
  {
    var p := Split(s, '.');
    DecimalValue(p[0]) * 0x100_0000 + DecimalValue(p[1]) * 0x1_0000 + DecimalValue(p[2]) * 0x100 + DecimalValue(p[3])
  }

  /** The dotted quad `a.b.c.d` with each part printed by `strval`. */
  function Quad(a: nat, b: nat, c: nat, d: nat): string
  {
    Join([DecimalString(a), DecimalString(b), DecimalString(c), DecimalString(d)], '.')
  }

  /** `long2ip` of a 32-bit number. */
  function Long2Ip(n: Ip32): string
  {
    Quad(n / 0x100_0000, n / 0x1_0000 % 0x100, n / 0x100 % 0x100, n % 0x100)
  }

  lemma OctetOfByte(x: nat)
    requires x <= 255
    ensures IsOctet(DecimalString(x)) && DecimalValue(DecimalString(x)) == x
  {
    DecimalValueOfString(x);
  }

  /** A dotted quad of four bytes is valid, and `ip2long` reads it as a big-endian number. */
  lemma QuadIsBigEndian(a: nat, b: nat, c: nat, d: nat)
    requires a <= 255 && b <= 255 && c <= 255 && d <= 255
    ensures IsIpv4(Quad(a, b, c, d))
    ensures Ip2Long(Quad(a, b, c, d)) == a * 0x100_0000 + b * 0x1_0000 + c * 0x100 + d
  {
    var parts := [DecimalString(a), DecimalString(b), DecimalString(c), DecimalString(d)];
    forall i | 0 <= i < 4
      ensures '.' !in parts[i]
    {
      DigitsExclude(parts[i], '.');
    }
    SplitJoin(parts, '.');
    OctetOfByte(a);
    OctetOfByte(b);
    OctetOfByte(c);
    OctetOfByte(d);
  }

  lemma ByteDecomposition(n: Ip32)
    ensures n / 0x100_0000 <= 255
    ensures n == n / 0x100_0000 * 0x100_0000 + n / 0x1_0000 % 0x100 * 0x1_0000 + n / 0x100 % 0x100 * 0x100 + n % 0x100
  {
    var q1 := n / 0x100;
    var q2 := n / 0x1_0000;
    var q3 := n / 0x100_0000;
    assert n == q1 * 0x100 + n % 0x100;
    assert q1 / 0x100 == q2;
    assert q1 == q2 * 0x100 + q1 % 0x100;
    assert q2 / 0x100 == q3;
    assert q2 == q3 * 0x100 + q2 % 0x100;
  }

  /** `long2ip` always prints a valid dotted quad, and `ip2long` inverts it. */
  lemma Long2IpValid(n: Ip32)
    ensures IsIpv4(Long2Ip(n)) && Ip2Long(Long2Ip(n)) == n
  {
    ByteDecomposition(n);
    QuadIsBigEndian(n / 0x100_0000, n / 0x1_0000 % 0x100, n / 0x100 % 0x100, n % 0x100);
  }

  lemma BytesOfComposition(a: nat, b: nat, c: nat, d: nat)
    requires a <= 255 && b <= 255 && c <= 255 && d <= 255
    ensures var n := a * 0x100_0000 + b * 0x1_0000 + c * 0x100 + d;
      n / 0x100_0000 == a && n / 0x1_0000 % 0x100 == b && n / 0x100 % 0x100 == c && n % 0x100 == d
  {
    var n := a * 0x100_0000 + b * 0x1_0000 + c * 0x100 + d;
    assert n / 0x100 == a * 0x1_0000 + b * 0x100 + c;
    assert n / 0x1_0000 == a * 0x100 + b;
  }

  /** Every valid dotted quad is the one `long2ip` prints for its value. */
  lemma Ipv4IsCanonical(s: string)
    requires IsIpv4(s)
    ensures Long2Ip(Ip2Long(s)) == s
  {
    var p := Split(s, '.');
    var a, b, c, d := DecimalValue(p[0]), DecimalValue(p[1]), DecimalValue(p[2]), DecimalValue(p[3]);
    assert Ip2Long(s) == a * 0x100_0000 + b * 0x1_0000 + c * 0x100 + d;
    BytesOfComposition(a, b, c, d);
    assert Long2Ip(Ip2Long(s)) == Quad(a, b, c, d);
    QuadOfParts(s);
  }

  /** Printing the values of a valid dotted quad's parts gives the quad back. */
  lemma QuadOfParts(s: string)
    requires IsIpv4(s)
    ensures var p := Split(s, '.');
      Quad(DecimalValue(p[0]), DecimalValue(p[1]), DecimalValue(p[2]), DecimalValue(p[3])) == s
  {
    var p := Split(s, '.');
    OctetPrintsItself(p[0]);
    OctetPrintsItself(p[1]);
    OctetPrintsItself(p[2]);
    OctetPrintsItself(p[3]);
    JoinOfSplit(s, '.');
    assert p == [p[0], p[1], p[2], p[3]];
  }

  /** A valid part is printed back as itself. */
  lemma OctetPrintsItself(p: string)
    requires IsOctet(p)
    ensures DecimalString(DecimalValue(p)) == p
  {
    DecimalStringOfValue(p);
  }

  /** Joining what was split gives the string back. */
  lemma {:induction false} JoinOfSplit(s: string, sep: char)
    ensures Join(Split(s, sep), sep) == s
    decreases |s|
  {
    if s != [] {
      var rest := Split(s[1..], sep);
      JoinOfSplit(s[1..], sep);
      if s[0] == sep {
        assert Split(s, sep) == [""] + rest;
        assert ([""] + rest)[1..] == rest;
        assert s == [sep] + s[1..];
      } else {
        var parts := [[s[0]] + rest[0]] + rest[1..];
        assert Split(s, sep) == parts;
        if |rest| == 1 {
          assert s == [s[0]] + s[1..];
        } else {
          assert parts[1..] == rest[1..];
          assert Join(rest, sep) == rest[0] + [sep] + Join(rest[1..], sep);
          assert s == [s[0]] + s[1..];
        }
      }
    }
  }
}
