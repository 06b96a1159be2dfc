/** CIDR texts as the planners see them: parsed by `net.ParseCIDR`, printed by `IPNet.String`. */
module RemapText {
  import opened Cidr
  import opened Order
  import opened Text

  type Word = n: nat | n < WORD

  type Ones = n: nat | n <= 32

  datatype Range6 = Prefix6(base: nat, ones: nat)

  /** A canonical IPv6 network. */
  type Block6 = p: Range6 | p.ones <= 128 && p.base % Pow2(128 - p.ones) == 0 witness Prefix6(0, 128)

  /** An IPv4 CIDR text, whose address may carry host bits, an IPv6 one with the network it denotes, or a text that does
      not parse. */
  datatype CidrText = V4(ip: Word, ones: Ones) | V6(text: string, net: Block6) | Malformed(text: string)

  function Dotted(ip: Word): string {
    Digits(ip / 256 / 256 / 256) + "." + (Digits(ip / 256 / 256 % 256) + "." + (Digits(ip / 256 % 256) + "." + Digits(ip % 256)))
  }

  function Show(c: CidrText): string {
    match c
    case V4(ip, ones) => Dotted(ip) + "/" + Digits(ones)
    case V6(text, _) => text
    case Malformed(text) => text
  }

  /** Order of the printed texts. */
  predicate LessText(a: CidrText, b: CidrText) {
    StringLess(Show(a), Show(b))
  }

  lemma SplitAtSeparator(a: nat, x: string, b: nat, y: string, sep: char)
    requires Digits(a) + [sep] + x == Digits(b) + [sep] + y && !('0' <= sep <= '9')
    ensures a == b && x == y
  {
    var s, t := Digits(a) + [sep] + x, Digits(b) + [sep] + y;
    var n, m := |Digits(a)|, |Digits(b)|;
    DigitsAreDigits(a);
    DigitsAreDigits(b);
    assert s[n] == sep && t[m] == sep;
    assert forall i :: 0 <= i < n ==> s[i] == Digits(a)[i] && Digits(a)[i] in Digits(a);
    assert forall i :: 0 <= i < m ==> t[i] == Digits(b)[i] && Digits(b)[i] in Digits(b);
    assert n == m;
    assert s[..n] == Digits(a) && t[..n] == Digits(b);
    assert s[n + 1..] == x && t[n + 1..] == y;
    DigitsInjective(a, b);
  }

  lemma OctetsDetermine(a: Word, b: Word)
    requires a / 256 / 256 / 256 == b / 256 / 256 / 256 && a / 256 / 256 % 256 == b / 256 / 256 % 256
    requires a / 256 % 256 == b / 256 % 256 && a % 256 == b % 256
    ensures a == b
  {
    assert a / 256 / 256 == b / 256 / 256;
    assert a / 256 == b / 256;
  }

  /** The printed form after the first octet. */
  function Tail2(ip: Word, rest: string): string {
    Digits(ip / 256 / 256 % 256) + "." + (Digits(ip / 256 % 256) + "." + (Digits(ip % 256) + "/" + rest))
  }

  lemma ShowUnfolds(c: CidrText)
    requires c.V4?
    ensures Show(c) == Digits(c.ip / 256 / 256 / 256) + "." + Tail2(c.ip, Digits(c.ones))
  {
    var d0, d1, d2, d3 := Digits(c.ip / 256 / 256 / 256), Digits(c.ip / 256 / 256 % 256), Digits(c.ip / 256 % 256), Digits(c.ip % 256);
    var ones := Digits(c.ones);
    assert (d0 + "." + (d1 + "." + (d2 + "." + d3))) + "/" + ones == d0 + "." + (d1 + "." + (d2 + "." + (d3 + "/" + ones)));
  }

  /** An address prints as its four octets, the highest first, and the prefix length. */
  lemma ShowOctets(a: nat, b: nat, c: nat, d: nat, ones: Ones)
    requires a < 256 && b < 256 && c < 256 && d < 256
    ensures Show(V4(a * 0x100_0000 + b * 0x1_0000 + c * 0x100 + d, ones)) == Itoa(a) + "." + Itoa(b) + "." + Itoa(c) + "." + Itoa(d) + "/" + Itoa(ones)
  {
    var ip: Word := a * 0x100_0000 + b * 0x1_0000 + c * 0x100 + d;
    assert ip / 256 == a * 0x1_0000 + b * 0x100 + c && ip % 256 == d;
    assert ip / 256 / 256 == a * 0x100 + b && ip / 256 % 256 == c;
    assert ip / 256 / 256 / 256 == a && ip / 256 / 256 % 256 == b;
    FlatDots(Itoa(a), Itoa(b), Itoa(c), Itoa(d), Itoa(ones));
  }

  lemma FlatDots(a: string, b: string, c: string, d: string, ones: string)
    ensures (a + "." + (b + "." + (c + "." + d))) + "/" + ones == a + "." + b + "." + c + "." + d + "/" + ones
  {
  }

  /** Distinct IPv4 texts print differently, so comparing printed ranges compares ranges. */
  lemma ShowInjective(a: CidrText, b: CidrText)
    requires a.V4? && b.V4? && Show(a) == Show(b)
    ensures a == b
  {
    ShowUnfolds(a);
    ShowUnfolds(b);
    SplitAtSeparator(a.ip / 256 / 256 / 256, Tail2(a.ip, Digits(a.ones)), b.ip / 256 / 256 / 256, Tail2(b.ip, Digits(b.ones)), '.');
    var a3, b3 := Digits(a.ip % 256) + "/" + Digits(a.ones), Digits(b.ip % 256) + "/" + Digits(b.ones);
    SplitAtSeparator(a.ip / 256 / 256 % 256, Digits(a.ip / 256 % 256) + "." + a3, b.ip / 256 / 256 % 256, Digits(b.ip / 256 % 256) + "." + b3, '.');
    SplitAtSeparator(a.ip / 256 % 256, a3, b.ip / 256 % 256, b3, '.');
    SplitAtSeparator(a.ip % 256, Digits(a.ones), b.ip % 256, Digits(b.ones), '/');
    DigitsInjective(a.ones, b.ones);
    OctetsDetermine(a.ip, b.ip);
  }

  lemma LessTextWeak()
    ensures WeakOrder(LessText)
  {
    forall a, b, c
      ensures LessText(a, b) && LessText(b, c) ==> LessText(a, c)
      ensures !LessText(a, b) && !LessText(b, c) ==> !LessText(a, c)
    {
      StringLessTriple(Show(a), Show(b), Show(c));
    }
    forall a ensures !LessText(a, a) {
      StringLessTriple(Show(a), Show(a), Show(a));
    }
  }

  ghost predicate AllV4(texts: set<CidrText>) {
    forall c :: c in texts ==> c.V4?
  }

  lemma LessTextTotal(texts: set<CidrText>)
    requires AllV4(texts)
    ensures TotalOn(LessText, texts)
  {
    forall a, b | a in texts && b in texts && a != b ensures LessText(a, b) || LessText(b, a) {
      if Show(a) == Show(b) {
        ShowInjective(a, b);
      }
      StringLessTriple(Show(a), Show(b), Show(b));
    }
  }

  // ---- The network a text denotes -----------------------------------------------------------------------

  lemma MaskedIsBlock(ip: Word, ones: Ones)
    ensures 0 <= Masked(ip, ones) <= ip
    ensures Aligned(Prefix(Masked(ip, ones), ones))
  {
    BlockCount(ones);
    FloorFits(ip, Size(ones), Pow2(ones));
  }

  /** The IPv4 network `net.ParseCIDR` finds in a text, host bits masked off. */
  function Net(c: CidrText): Option<Block> {
    match c
    case V4(ip, ones) => MaskedIsBlock(ip, ones); Some(Prefix(Masked(ip, ones), ones))
    case V6(_, _) => None
    case Malformed(_) => None
  }

  predicate Contains6(b: Block6, ip: int) {
    b.base <= ip < b.base + Pow2(128 - b.ones)
  }

  /** The same overlap test of two IPv6 networks. Networks of different families never overlap. */
  predicate Overlap6(a: Block6, b: Block6) {
    Contains6(a, b.base) || Contains6(b, a.base)
  }

  /** `IPNet.String`. */
  function CanonText(b: Block): CidrText {
    V4(b.base, b.ones)
  }

  predicate Canonical(c: CidrText) {
    c.V4? && c.ip == Masked(c.ip, c.ones)
  }

  /** Masking a block's own base changes nothing. */
  lemma BlockIsCanonical(b: Block)
    ensures Canonical(CanonText(b)) && Net(CanonText(b)) == Some(b)
  {
    MultipleIsFloor(b.base, Size(b.ones));
  }

  lemma CanonicalIsCanonText(c: CidrText)
    requires Canonical(c)
    ensures Net(c).Some? && CanonText(Net(c).value) == c
  {
  }

  /** A printed IPv4 range holds digits, dots and a slash. */
  lemma ShowCharacters(c: CidrText, x: char)
    requires c.V4? && x in Show(c)
    ensures '0' <= x <= '9' || x == '.' || x == '/'
  {
    forall n: nat ensures forall d :: d in Digits(n) ==> '0' <= d <= '9' {
      DigitsAreDigits(n);
    }
    var ip := c.ip;
    InConcat(Dotted(ip) + "/", Digits(c.ones), x);
    InConcat(Dotted(ip), "/", x);
    InDotted(Digits(ip / 256 / 256 / 256), Digits(ip / 256 / 256 % 256), Digits(ip / 256 % 256), Digits(ip % 256), x);
  }

  lemma InConcat(a: string, b: string, x: char)
    ensures x in a + b <==> x in a || x in b
  {
  }

  lemma InDotted(a: string, b: string, c: string, d: string, x: char)
    ensures x in a + "." + (b + "." + (c + "." + d)) ==> x in a || x in b || x in c || x in d || x == '.'
  {
  }
}
