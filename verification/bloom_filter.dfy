/** The Bloom filter (BloomFilter.java:142-236): a bit set of 2^L bits and
    `noHashes` probes per string, each probe one hash number of `BloomHash`. */
module BloomFilter {

  import opened Wrappers
  import opened JavaInt
  import opened BloomHash

  /** The exceptions the two constructors throw. */
  datatype BloomError =
    | InvalidBits      // "Invalid number of bits"
    | InvalidHashes    // "Invalid number of hashes"
    | TooBig           // "Bloom filter would be too big"
    | NegativeSize     // `new BitSet(n)` with n < 0

  /** The filter's state: the set bits of `data`, the number of hashes, and
      the base-2 logarithm of the bit count (`hashMask` is 2^log2Bits - 1). */
  datatype Filter = Filter(bits: set<nat>, noHashes: nat, log2Bits: nat)

  /** The largest bit count whose `1 << log2` is a positive `int`. */
  const MaxLog2Bits: nat := 30

  /** 2^MaxLog2Bits, the largest power of two an `int` holds. */
  const MaxBits: int := 0x4000_0000

  function HashMask(f: Filter): int {
    Pow2(f.log2Bits) - 1
  }

  /** What every constructed filter satisfies: parameters in range and no bit
      set outside the bit array. */
  predicate Valid(f: Filter) {
    && 1 <= f.noHashes <= MaxHashes
    && 1 <= f.log2Bits <= MaxLog2Bits
    && forall i :: i in f.bits ==> i < Pow2(f.log2Bits)
  }

  /** `new BloomFilter(log2noBits, noHashes)`. The range check admits 31, but
      `1 << 31` is negative and the bit set's constructor rejects it. */
  function New(log2noBits: int, noHashes: int): (r: Result<Filter, BloomError>)
    ensures r.Ok? <==> 1 <= log2noBits <= MaxLog2Bits && 1 <= noHashes <= MaxHashes
    ensures r.Ok? ==> Valid(r.value) && r.value.bits == {}
    ensures r.Ok? ==> HashMask(r.value) == Pow2(log2noBits) - 1 && r.value.noHashes == noHashes
    ensures (log2noBits < 1 || log2noBits > 31) ==> r == Err(InvalidBits)
    ensures 1 <= log2noBits <= 31 && (noHashes < 1 || noHashes > MaxHashes) ==> r == Err(InvalidHashes)
    ensures log2noBits == 31 && 1 <= noHashes <= MaxHashes ==> r == Err(NegativeSize)
  {
    if log2noBits < 1 || log2noBits > 31 then Err(InvalidBits)
    else if noHashes < 1 || noHashes > MaxHashes then Err(InvalidHashes)
    else if log2noBits == 31 then Err(NegativeSize)
    else Ok(Filter({}, noHashes, log2noBits))
  }

  /** Java's `1 << n` on an `int`: the shift distance is taken mod 32 and the
      result wraps, so `1 << 31` is negative and `1 << 32 == 1`. */
  function ShiftOne(n: nat): (r: int)
    ensures IsInt(r)
    ensures n % 32 < 31 ==> r == Pow2(n % 32)
    ensures n % 32 == 31 ==> r == MinInt
  {
    var k := n % 32;
    Pow2Edges();
    if k < 31 then Pow2Monotone(k, 30); Wrap(Pow2(k)) else Wrap(Pow2(k))
  }

  /** Every value of `1 << n` is at most 2^30, so the sizing loop's test
      `(1 << logBits) < bitsRequired` is true forever once `bitsRequired`
      exceeds 2^30: the loop never ends. */
  lemma SizingLoopNeverExits(bitsRequired: int, logBits: nat)
    requires MaxBits < bitsRequired
    ensures ShiftOne(logBits) < bitsRequired
  {
    Pow2Edges();
    if logBits % 32 < 31 {
      Pow2Monotone(logBits % 32, MaxLog2Bits);
    }
  }

  /** The bit count the sizing constructor asks for: an `int` product. */
  function BitsRequired(noItems: int, bitsPerItem: int): (req: int)
    ensures IsInt(req)
  {
    Wrap(noItems * bitsPerItem)
  }

  /** `new BloomFilter(noItems, bitsPerItem, noHashes)`, as written: the bit
      count is an `int` product and may wrap. A request above 2^30 bits but
      below `Integer.MAX_VALUE` makes the sizing loop spin forever (see
      `SizingLoopNeverExits`), so such inputs are excluded. */
  method NewSized(noItems: int, bitsPerItem: int, noHashes: int) returns (r: Result<Filter, BloomError>)
    requires IsInt(noItems) && IsInt(bitsPerItem) && IsInt(noHashes)
    requires BitsRequired(noItems, bitsPerItem) <= MaxBits || BitsRequired(noItems, bitsPerItem) >= MaxInt
    ensures r.Ok? <==> BitsRequired(noItems, bitsPerItem) < MaxInt && 1 <= noHashes <= MaxHashes
    ensures BitsRequired(noItems, bitsPerItem) >= MaxInt ==> r == Err(TooBig)
    ensures BitsRequired(noItems, bitsPerItem) < MaxInt && !(1 <= noHashes <= MaxHashes) ==> r == Err(InvalidHashes)
    ensures r.Ok? ==> Valid(r.value) && r.value.bits == {} && r.value.noHashes == noHashes
    ensures r.Ok? ==> var l := r.value.log2Bits;
      && 4 <= l
      && BitsRequired(noItems, bitsPerItem) <= Pow2(l)
      && (l == 4 || Pow2(l - 1) < BitsRequired(noItems, bitsPerItem))
  {
    var bitsRequired := BitsRequired(noItems, bitsPerItem);
    if bitsRequired >= MaxInt {
      return Err(TooBig);
    }
    var logBits := SizingLoop(bitsRequired);
    if noHashes < 1 || noHashes > MaxHashes {
      return Err(InvalidHashes);
    }
    return Ok(Filter({}, noHashes, logBits));
  }

  /** The sizing constructor's `while` loop: the least `logBits >= 4` whose
      power of two reaches the request. */
  method SizingLoop(bitsRequired: int) returns (logBits: nat)
    requires bitsRequired <= MaxBits
    ensures 4 <= logBits <= MaxLog2Bits
    ensures bitsRequired <= Pow2(logBits)
    ensures logBits == 4 || Pow2(logBits - 1) < bitsRequired
  {
    logBits := 4;
    SizingStart(bitsRequired);
    while ShiftOne(logBits) < bitsRequired
      invariant SizingInvariant(bitsRequired, logBits)
      decreases MaxLog2Bits - logBits
    {
      SizingStep(bitsRequired, logBits);
      logBits := logBits + 1;
    }
    SizingExit(bitsRequired, logBits);
  }

  /** What the sizing loop keeps: `logBits` is in range, its shift is its
      power of two, and every smaller candidate was too small. */
  ghost predicate SizingInvariant(bitsRequired: int, logBits: nat) {
    && bitsRequired <= MaxBits
    && 4 <= logBits <= MaxLog2Bits
    && (logBits == 4 || Pow2(logBits - 1) < bitsRequired)
  }

  lemma SizingStart(bitsRequired: int)
    requires bitsRequired <= MaxBits
    ensures SizingInvariant(bitsRequired, 4)
  {
  }

  /** One iteration of the sizing loop stays within 2^30 and keeps the
      previous power of two below the request. */
  lemma SizingStep(bitsRequired: int, logBits: nat)
    requires SizingInvariant(bitsRequired, logBits)
    requires ShiftOne(logBits) < bitsRequired
    ensures logBits < MaxLog2Bits
    ensures SizingInvariant(bitsRequired, logBits + 1)
  {
    ShiftOneIsPow2(logBits);
  }

  /** When the loop test fails, `logBits` is the answer. */
  lemma SizingExit(bitsRequired: int, logBits: nat)
    requires SizingInvariant(bitsRequired, logBits)
    requires !(ShiftOne(logBits) < bitsRequired)
    ensures 4 <= logBits <= MaxLog2Bits
    ensures bitsRequired <= Pow2(logBits)
    ensures logBits == 4 || Pow2(logBits - 1) < bitsRequired
  {
    ShiftOneIsPow2(logBits);
  }

  /** Below 31, `1 << n` is the power of two; at 30 it is the largest one. */
  lemma ShiftOneIsPow2(n: nat)
    requires n <= MaxLog2Bits
    ensures ShiftOne(n) == Pow2(n)
    ensures n == MaxLog2Bits ==> Pow2(n) == MaxBits
  {
    assert n % 32 == n;
    Pow2Edges();
  }

  /** The least `l >= 4` with `2^l >= bitsRequired`, searching from `l`. */
  function SizeLog2(bitsRequired: int, l: nat): (r: nat)
    requires 4 <= l <= MaxLog2Bits
    requires bitsRequired <= MaxBits
    requires l == 4 || Pow2(l - 1) < bitsRequired
    ensures l <= r <= MaxLog2Bits
    ensures bitsRequired <= Pow2(r)
    ensures r == 4 || Pow2(r - 1) < bitsRequired
    decreases MaxLog2Bits - l
  {
    if bitsRequired <= Pow2(l) then l
    else
      ShiftOneIsPow2(l);
      SizeLog2(bitsRequired, l + 1)
  }

  /** The sizing constructor as evidently intended: the bit count is the exact
      product, and any request above 2^30 bits (the largest power of two an
      `int` holds) is rejected as too big. */
  function NewSizedChecked(noItems: int, bitsPerItem: int, noHashes: int): (r: Result<Filter, BloomError>)
    ensures r.Ok? <==> noItems * bitsPerItem <= MaxBits && 1 <= noHashes <= MaxHashes
    ensures noItems * bitsPerItem > MaxBits ==> r == Err(TooBig)
    ensures noItems * bitsPerItem <= MaxBits && !(1 <= noHashes <= MaxHashes) ==> r == Err(InvalidHashes)
    ensures r.Ok? ==> Valid(r.value) && r.value.bits == {} && r.value.noHashes == noHashes
    ensures r.Ok? ==> var l := r.value.log2Bits;
      && 4 <= l
      && noItems * bitsPerItem <= Pow2(l)
      && (l == 4 || Pow2(l - 1) < noItems * bitsPerItem)
  {
    var bitsRequired := noItems * bitsPerItem;
    if bitsRequired > MaxBits then Err(TooBig)
    else if noHashes < 1 || noHashes > MaxHashes then Err(InvalidHashes)
    else Ok(Filter({}, noHashes, SizeLog2(bitsRequired, 4)))
  }

  /** 65536 items of 65536 bits each wrap to a request of 0 bits: the
      as-written constructor returns a 16-bit filter instead of refusing,
      while the corrected one refuses. */
  lemma NewSizedOverflowAccepted()
    ensures BitsRequired(65536, 65536) == 0
    ensures NewSizedChecked(65536, 65536, 3) == Err(TooBig)
  {
    Pow2Edges();
  }

  /** Java's `(int) hc`: the low 32 bits of a `long`, as a signed `int`. */
  function LowInt(hc: bv64): (r: int)
    ensures IsInt(r)
    ensures (r - hc as int) % 0x1_0000_0000 == 0
  {
    Wrap(hc as int)
  }

  /** The bit number of one probe, `(int) hc & hashMask`. The mask 2^L - 1 is
      non-negative, so the `&` keeps the low L bits of the two's-complement
      `int`: its Euclidean remainder modulo 2^L. */
  function ProbeIndex(hc: bv64, log2Bits: nat): (i: nat)
    requires 1 <= log2Bits <= MaxLog2Bits
    ensures i < Pow2(log2Bits)
  {
    LowInt(hc) % Pow2(log2Bits)
  }

  /** The bit probe `n` of string `s` reads and writes. */
  function Probe(s: seq<JChar>, n: nat, log2Bits: nat): (i: nat)
    requires n < MaxHashes && 1 <= log2Bits <= MaxLog2Bits
    ensures i < Pow2(log2Bits)
  {
    ProbeIndex(HashCode(s, n), log2Bits)
  }

  /** The bits of probes `n` up to but excluding `k` of string `s`. */
  function ProbeRange(s: seq<JChar>, n: nat, k: nat, log2Bits: nat): set<nat>
    requires k <= MaxHashes && 1 <= log2Bits <= MaxLog2Bits
  {
    set m | n <= m < k :: Probe(s, m, log2Bits)
  }

  lemma ProbeRangeSplit(s: seq<JChar>, n: nat, k: nat, log2Bits: nat)
    requires n < k <= MaxHashes && 1 <= log2Bits <= MaxLog2Bits
    ensures ProbeRange(s, n, k, log2Bits) == {Probe(s, n, log2Bits)} + ProbeRange(s, n + 1, k, log2Bits)
  {
  }

  /** All bits the filter's probes pick for `s`. */
  function Probes(f: Filter, s: seq<JChar>): set<nat>
    requires Valid(f)
  {
    ProbeRange(s, 0, f.noHashes, f.log2Bits)
  }

  /** The loop of `add` from hash number `n` on: sets the remaining probes. */
  function SetProbes(bits: set<nat>, s: seq<JChar>, n: nat, noHashes: nat, log2Bits: nat): (r: set<nat>)
    requires n <= noHashes <= MaxHashes && 1 <= log2Bits <= MaxLog2Bits
    ensures r == bits + ProbeRange(s, n, noHashes, log2Bits)
    decreases noHashes - n
  {
    if n == noHashes then bits
    else
      ProbeRangeSplit(s, n, noHashes, log2Bits);
      SetProbes(bits + {Probe(s, n, log2Bits)}, s, n + 1, noHashes, log2Bits)
  }

  /** `add(s)`: the new bits are the old ones plus the probes of `s`; no bit
      is cleared and no other bit is set. */
  function Add(f: Filter, s: seq<JChar>): (r: Filter)
    requires Valid(f)
    ensures Valid(r)
    ensures r.bits == f.bits + Probes(f, s)
    ensures r.noHashes == f.noHashes && r.log2Bits == f.log2Bits
  {
    f.(bits := SetProbes(f.bits, s, 0, f.noHashes, f.log2Bits))
  }

  /** The loop of `contains` from hash number `n` on: false at the first
      probe whose bit is clear. */
  function ProbesSet(bits: set<nat>, s: seq<JChar>, n: nat, noHashes: nat, log2Bits: nat): (r: bool)
    requires n <= noHashes <= MaxHashes && 1 <= log2Bits <= MaxLog2Bits
    ensures r <==> forall m :: n <= m < noHashes ==> Probe(s, m, log2Bits) in bits
    decreases noHashes - n
  {
    if n == noHashes then true
    else if Probe(s, n, log2Bits) !in bits then false
    else ProbesSet(bits, s, n + 1, noHashes, log2Bits)
  }

  /** `contains(s)`: true exactly when every probe bit of `s` is set. */
  function Contains(f: Filter, s: seq<JChar>): (r: bool)
    requires Valid(f)
    ensures r <==> Probes(f, s) <= f.bits
  {
    ProbesSet(f.bits, s, 0, f.noHashes, f.log2Bits)
  }

  /** A fresh filter holds nothing: every string has at least one probe. */
  lemma EmptyContainsNothing(f: Filter, s: seq<JChar>)
    requires Valid(f) && f.bits == {}
    ensures !Contains(f, s)
  {
    assert Probe(s, 0, f.log2Bits) in Probes(f, s);
  }

  /** No false negatives: a string just added is reported present. */
  lemma ContainsAfterAdd(f: Filter, s: seq<JChar>)
    requires Valid(f)
    ensures Contains(Add(f, s), s)
  {
  }

  /** Adding anything never turns a positive answer negative. */
  lemma AddKeepsContains(f: Filter, s: seq<JChar>, t: seq<JChar>)
    requires Valid(f) && Contains(f, s)
    ensures Contains(Add(f, t), s)
  {
  }

  /** Adding the same string twice leaves the bits of adding it once. */
  lemma AddIdempotent(f: Filter, s: seq<JChar>)
    requires Valid(f)
    ensures Add(Add(f, s), s) == Add(f, s)
  {
  }

  /** The filter after adding each string of `ss` in order. */
  function AddAll(f: Filter, ss: seq<seq<JChar>>): (r: Filter)
    requires Valid(f)
    ensures Valid(r) && f.bits <= r.bits
    ensures r.noHashes == f.noHashes && r.log2Bits == f.log2Bits
    decreases |ss|
  {
    if ss == [] then f else AddAll(Add(f, ss[0]), ss[1..])
  }

  /** No false negatives over a history: every string ever added is reported
      present after any sequence of further additions. */
  lemma {:induction false} ContainsAfterAddAll(f: Filter, ss: seq<seq<JChar>>, i: nat)
    requires Valid(f) && i < |ss|
    ensures Contains(AddAll(f, ss), ss[i])
    decreases |ss|
  {
    var g := Add(f, ss[0]);
    assert AddAll(f, ss) == AddAll(g, ss[1..]);
    if i == 0 {
      ContainsAfterAdd(f, ss[0]);
      KeepsContainsAll(g, ss[0], ss[1..]);
    } else {
      assert ss[1..][i - 1] == ss[i];
      ContainsAfterAddAll(g, ss[1..], i - 1);
    }
  }

  /** A string reported present stays present through any further additions. */
  lemma {:induction false} KeepsContainsAll(f: Filter, s: seq<JChar>, ss: seq<seq<JChar>>)
    requires Valid(f) && Contains(f, s)
    ensures Contains(AddAll(f, ss), s)
    decreases |ss|
  {
    if ss != [] {
      AddKeepsContains(f, s, ss[0]);
      KeepsContainsAll(Add(f, ss[0]), s, ss[1..]);
    }
  }
}
