/**
 * `toHash`: a 53-bit string hash over UTF-16 code units, computed with
 * 32-bit wrapping multiplications (`Math.imul`), xors and unsigned shifts.
 */
module Hash {
  import opened Strings

  /** One UTF-16 code unit, as `charCodeAt` returns it. */
  type CodeUnit = bv16

  const Seed1: bv32 := 0xdeadbeef
  const Seed2: bv32 := 0x41c6ce57

  /** The two 32-bit accumulators. */
  datatype State = State(h1: bv32, h2: bv32)

  /** One loop iteration: xor the code unit into each accumulator, then multiply modulo 2^32. */
  function Step(st: State, c: CodeUnit): State
  {
    State((st.h1 ^ c as bv32) * 2654435761, (st.h2 ^ c as bv32) * 1597334677)
  }

  /** The accumulators after consuming `units` left to right from the seeds. */
  function Absorb(units: seq<CodeUnit>): State
    decreases |units|
  {
    if |units| == 0 then State(Seed1, Seed2)
    else Step(Absorb(units[..|units| - 1]), units[|units| - 1])
  }

  /** The final avalanche; the new `h2` is computed from the already updated `h1`. */
  function Mix(st: State): State
  {
    var h1 := ((st.h1 ^ (st.h1 >> 16)) * 2246822507) ^ ((st.h2 ^ (st.h2 >> 13)) * 3266489909);
    var h2 := ((st.h2 ^ (st.h2 >> 16)) * 2246822507) ^ ((h1 ^ (h1 >> 13)) * 3266489909);
    State(h1, h2)
  }

  const TwoTo32: nat := 0x1_0000_0000
  const TwoTo53: nat := 0x20_0000_0000_0000

  /** `2097151 & x`: the 21 low bits of a 32-bit word, as a number. */
  function Low21(x: bv32): (r: nat)
    ensures r < 0x20_0000
  {
    (x as int) % 0x20_0000
  }

  /** `x >>> 0`: a 32-bit word read as an unsigned number. */
  function Low32(x: bv32): (r: nat)
    ensures r < TwoTo32
  {
    x as int
  }

  /** Placing `hi` above a 32-bit `lo` is undone by division and remainder by 2^32. */
  lemma PlaceAbove(hi: nat, lo: nat)
    requires hi < 0x20_0000 && lo < TwoTo32
    ensures TwoTo32 * hi + lo < TwoTo53
    ensures (TwoTo32 * hi + lo) / TwoTo32 == hi
    ensures (TwoTo32 * hi + lo) % TwoTo32 == lo
  {
    assert TwoTo32 * hi <= TwoTo32 * 0x1F_FFFF;
  }

  /** `4294967296 * (2097151 & h2) + (h1 >>> 0)`: 21 bits of `h2` above the 32 bits of `h1`. */
  function Combine(st: State): (r: nat)
    ensures r < TwoTo53
    ensures r % TwoTo32 == Low32(st.h1)
    ensures r / TwoTo32 == Low21(st.h2)
  {
    Place(Low21(st.h2), Low32(st.h1))
  }

  /** `4294967296 * hi + lo` for a 21-bit `hi` and a 32-bit `lo`. */
  function Place(hi: nat, lo: nat): (r: nat)
    requires hi < 0x20_0000 && lo < TwoTo32
    ensures r < TwoTo53
    ensures r % TwoTo32 == lo && r / TwoTo32 == hi
  {
    PlaceAbove(hi, lo);
    TwoTo32 * hi + lo
  }

  /** The number whose decimal rendering `toHash` returns. */
  function HashValue(units: seq<CodeUnit>): nat
  {
    Combine(Mix(Absorb(units)))
  }

  /**
   * `toHash(text)` for a string given as its UTF-16 code units: the loop keeps
   * the accumulators, and the result is the decimal rendering of a
   * non-negative integer below 2^53 with no sign.
   */
  method ToHash(text: seq<CodeUnit>) returns (r: string)
    ensures r == NatToDecimal(HashValue(text))
    ensures IsCanonicalDecimal(r)
    ensures DecimalValue(r) < TwoTo53
  {
    var h1: bv32 := Seed1;
    var h2: bv32 := Seed2;
    var i := 0;
    while i < |text|
      invariant 0 <= i <= |text|
      invariant State(h1, h2) == Absorb(text[..i])
      decreases |text| - i
    {
      assert text[..i + 1][..i] == text[..i];
      var next := Step(State(h1, h2), text[i]);
      h1, h2 := next.h1, next.h2;
      i := i + 1;
    }
    assert text[..i] == text;
    var st := Mix(State(h1, h2));
    var value := Combine(st);
    r := NatToDecimal(value);
    DecimalRoundTrip(value);
  }

  /** The empty string hashes to 3338908027751811, fixing the seeds and the mixing order. */
  lemma EmptyHash()
    ensures HashValue([]) == 3338908027751811
  {
  }

  /** "a" (code unit 0x61) hashes to 7929297801672961. */
  lemma SingleUnitHash()
    ensures HashValue([0x61]) == 7929297801672961
  {
    assert [0x61 as CodeUnit][..0] == [];
  }
}
