/**
 * The colour of a domain's group: a 32-bit string hash of the domain, reduced to
 * an index into the nine tab-group colours.
 */
module Colors {

  /** The tab-group colours, in the order the hash indexes them. */
  const GROUP_COLORS: seq<string> :=
    ["grey", "blue", "red", "yellow", "green", "pink", "purple", "cyan", "orange"]

  const TWO_32: int := 0x1_0000_0000
  const TWO_31: int := 0x8000_0000

  predicate IsInt32(x: int) {
    -TWO_31 <= x < TWO_31
  }

  /** ECMAScript's ToInt32: the 32-bit two's-complement integer congruent to `x`. */
  function ToInt32(x: int): (r: int)
    ensures IsInt32(r)
    ensures (x - r) % TWO_32 == 0
  {
    var m := x % TWO_32;
    if m >= TWO_31 then m - TWO_32 else m
  }

  /** Numbers that agree modulo 2^32 have the same ToInt32. */
  lemma ToInt32Congruent(x: int, y: int)
    requires (x - y) % TWO_32 == 0
    ensures ToInt32(x) == ToInt32(y)
  {
    var k := (x - y) / TWO_32;
    assert x == y + k * TWO_32;
    assert x % TWO_32 == y % TWO_32;
  }

  /** One step of the loop: `hash = (hash << 5) - hash + code; hash |= 0`. */
  function HashStep(hash: int, c: char): int {
    var shifted := ToInt32(hash * 32);  // `<<` yields a 32-bit result
    ToInt32(shifted - hash + c as int)
  }

  /** The shift-and-subtract step is the multiply-by-31 step of the classic string hash. */
  lemma HashStepTimes31(hash: int, c: char)
    ensures HashStep(hash, c) == ToInt32(31 * hash + c as int)
  {
    var shifted := ToInt32(hash * 32);
    assert (shifted - hash + c as int) - (31 * hash + c as int) == shifted - hash * 32;
    assert ((hash * 32) - shifted) % TWO_32 == 0;
    ToInt32Congruent(shifted - hash + c as int, 31 * hash + c as int);
  }

  /** The value of `hash` after the loop has visited all of `s`. */
  function Hash(s: string): (r: int)
    ensures IsInt32(r)
  {
    if s == [] then 0 else HashStep(Hash(s[..|s| - 1]), s[|s| - 1])
  }

  /** Reference definition: the polynomial `s[0]*31^(n-1) + ... + s[n-1]` over unbounded integers. */
  function Polynomial(s: string): int {
    if s == [] then 0 else 31 * Polynomial(s[..|s| - 1]) + s[|s| - 1] as int
  }

  /** The hash is that polynomial wrapped to 32 bits once, at the end. */
  lemma {:induction false} HashIsWrappedPolynomial(s: string)
    ensures Hash(s) == ToInt32(Polynomial(s))
  {
    if s != [] {
      var init, c := s[..|s| - 1], s[|s| - 1];
      HashIsWrappedPolynomial(init);
      HashStepTimes31(Hash(init), c);
      var p := Polynomial(init);
      var h := Hash(init);
      CongruentTimes31(p, h, c as int);
      ToInt32Congruent(31 * p + c as int, 31 * h + c as int);
    }
  }

  /** Multiplying by 31 and adding the same code keeps two numbers congruent modulo 2^32. */
  lemma CongruentTimes31(p: int, h: int, c: int)
    requires (p - h) % TWO_32 == 0
    ensures ((31 * p + c) - (31 * h + c)) % TWO_32 == 0
  {
    var k := (p - h) / TWO_32;
    assert p - h == k * TWO_32;
    assert (31 * p + c) - (31 * h + c) == (31 * k) * TWO_32;
  }

  function Abs(x: int): nat {
    if x < 0 then -x else x
  }

  /** `getColorIndex`: the empty domain is grey; otherwise `Math.abs(hash) % 9`. */
  function ColorIndex(domain: string): (r: nat)
    ensures r < |GROUP_COLORS|
    ensures domain == "" ==> r == 0
  {
    if domain == "" then 0 else Abs(Hash(domain)) % |GROUP_COLORS|
  }

  /** The colour `getColorIndex` selects. */
  function ColorOf(domain: string): (c: string)
    ensures c in GROUP_COLORS
  {
    GROUP_COLORS[ColorIndex(domain)]
  }

  /** `getColorIndex`, with its loop over the characters of the domain. */
  method GetColorIndex(domain: string) returns (index: nat)
    ensures index == ColorIndex(domain)
    ensures index < |GROUP_COLORS|
  {
    if |domain| == 0 {
      return 0;
    }
    var hash := 0;
    for i := 0 to |domain|
      invariant hash == Hash(domain[..i])
    {
      assert domain[..i + 1][..i] == domain[..i];
      var shifted := ToInt32(hash * 32);
      hash := shifted - hash + domain[i] as int;
      hash := ToInt32(hash);
    }
    assert domain[..|domain|] == domain;
    index := Abs(hash) % |GROUP_COLORS|;
  }
}
