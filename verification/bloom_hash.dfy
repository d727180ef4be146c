/** The Bloom filter's 64-bit table-driven hash (BloomFilter.java:75-140).
    A Java `long` is a `bv64`: multiplication, shifts and xor wrap exactly as
    they do in Java, and `>>` on a bit-vector is Java's unsigned `>>>`. */
module BloomHash {

  import opened JavaInt

  /** A Java `char`: one UTF-16 code unit. Strings are sequences of them. */
  type JChar = bv16

  const MaxHashes: nat := 8
  const TableSize: nat := 256 * MaxHashes
  const HStart: bv64 := 0xBB40_E64D_A205_B064
  const HMult: bv64 := 7664345821815920749
  const TableSeed: bv64 := 0x544B_2FBA_CAAF_1684
  /** How many times the table builder's inner loop runs per entry. */
  const InnerRounds: nat := 31

  /** The statement the unbraced inner `for` repeats 31 times. */
  function Xorshift7(h: bv64): bv64 {
    (h >> 7) ^ h
  }

  /** `Xorshift7` applied `n` times. */
  function Xorshift7Times(h: bv64, n: nat): bv64 {
    if n == 0 then h else Xorshift7(Xorshift7Times(h, n - 1))
  }

  /** The second statement on the same source line, outside the loop. */
  function Xorshift11(h: bv64): bv64 {
    (h << 11) ^ h
  }

  /** The third statement on the same source line, outside the loop. */
  function Xorshift10(h: bv64): bv64 {
    (h >> 10) ^ h
  }

  /** The work done for one table entry: 31 rounds of the first shift-xor
      (only it sits in the inner loop, which has no braces), then one round
      each of the other two. */
  function EntryStep(h: bv64): bv64 {
    Xorshift10(Xorshift11(Xorshift7Times(h, InnerRounds)))
  }

  /** The generator's running value after `i` entries have been produced. */
  function GeneratorState(i: nat): bv64 {
    if i == 0 then TableSeed else EntryStep(GeneratorState(i - 1))
  }

  /** Entry `i` of the scrambling table: the state after entry `i` is made. */
  function ByteTable(i: nat): bv64
    requires i < TableSize
  {
    GeneratorState(i + 1)
  }

  /** The body of the initialiser's outer loop: from the running value `h`,
      the next table entry (which is also the next running value). */
  method NextEntry(h0: bv64) returns (h: bv64)
    ensures h == EntryStep(h0)
  {
    h := h0;
    var j := 0;
    while j < InnerRounds
      invariant 0 <= j <= InnerRounds
      invariant h == Xorshift7Times(h0, j)
    {
      h := Xorshift7(h);
      j := j + 1;
    }
    h := Xorshift11(h);
    h := Xorshift10(h);
  }

  /** The static initialiser, loop for loop: entry `i` is the generator's
      state after `i + 1` entry steps. */
  method BuildByteTable() returns (table: seq<bv64>)
    ensures |table| == TableSize
    ensures forall i :: 0 <= i < TableSize ==> table[i] == ByteTable(i)
  {
    table := [];
    var h: bv64 := TableSeed;
    var i := 0;
    while i < TableSize
      invariant 0 <= i <= TableSize
      invariant |table| == i
      invariant h == GeneratorState(i)
      invariant forall m :: 0 <= m < i ==> table[m] == GeneratorState(m + 1)
    {
      h := NextEntry(h);
      table := table + [h];
      i := i + 1;
    }
  }

  /** The slot of the table read for byte `b` under hash number `n`. */
  function TableIndex(n: nat, b: bv16): (ix: nat)
    requires n < MaxHashes && b < 256
    ensures 256 * n <= ix < 256 * (n + 1)
    ensures ix < TableSize
  {
    256 * n + b as nat
  }

  /** One fold of a byte into the running hash. */
  function Fold(h: bv64, n: nat, b: bv16): bv64
    requires n < MaxHashes && b < 256
  {
    (h * HMult) ^ ByteTable(TableIndex(n, b))
  }

  /** The fold of one character: low byte first, then high byte. */
  function FoldChar(h: bv64, n: nat, ch: JChar): bv64
    requires n < MaxHashes
  {
    Fold(Fold(h, n, ch & 0xff), n, (ch >> 8) & 0xff)
  }

  /** The fold of one character under hash number `n`, as a step function. */
  function Step(n: nat): (bv64, JChar) -> bv64
    requires n < MaxHashes
  {
    (h, ch) => FoldChar(h, n, ch)
  }

  /** Folding `step` over `s` from the back: the last character is folded
      into the fold of the rest. */
  function FoldBack(h: bv64, s: seq<JChar>, step: (bv64, JChar) -> bv64): bv64
    decreases |s|
  {
    if s == [] then h else step(FoldBack(h, s[..|s| - 1], step), s[|s| - 1])
  }

  /** Folding `step` over `s` from the front: the first character is folded
      into `h` and the rest follows. */
  function FoldFront(h: bv64, s: seq<JChar>, step: (bv64, JChar) -> bv64): bv64
    decreases |s|
  {
    if s == [] then h else FoldFront(step(h, s[0]), s[1..], step)
  }

  /** `hashCode(s, n)` as a left fold of the characters of `s` from `HStart`. */
  function HashCode(s: seq<JChar>, n: nat): bv64
    requires n < MaxHashes
  {
    FoldBack(HStart, s, Step(n))
  }

  /** `hashCode(s, n)` as the Java loop computes it, front to back. */
  method HashCodeLoop(s: seq<JChar>, n: nat) returns (h: bv64)
    requires n < MaxHashes
    ensures h == HashCode(s, n)
  {
    h := HStart;
    var i := 0;
    while i < |s|
      invariant 0 <= i <= |s|
      invariant h == HashCode(s[..i], n)
    {
      assert s[..i + 1][..i] == s[..i];
      h := FoldChar(h, n, s[i]);
      i := i + 1;
    }
    assert s[..|s|] == s;
  }

  /** Folding from the front, the last character is folded in last. */
  lemma {:induction false} FoldFrontSnoc(h: bv64, s: seq<JChar>, ch: JChar, step: (bv64, JChar) -> bv64)
    ensures FoldFront(h, s + [ch], step) == step(FoldFront(h, s, step), ch)
    decreases |s|
  {
    if s != [] {
      assert (s + [ch])[1..] == s[1..] + [ch];
      FoldFrontSnoc(step(h, s[0]), s[1..], ch, step);
    }
  }

  /** Folding `s + t` from the back continues from the fold of `s`. */
  lemma {:induction false} FoldBackAppend(h: bv64, s: seq<JChar>, t: seq<JChar>, step: (bv64, JChar) -> bv64)
    ensures FoldBack(h, s + t, step) == FoldFront(FoldBack(h, s, step), t, step)
    decreases |t|
  {
    if t == [] {
      assert s + t == s;
    } else {
      var init, ch := t[..|t| - 1], t[|t| - 1];
      assert (s + t)[..|s + t| - 1] == s + init && (s + t)[|s + t| - 1] == ch;
      FoldBackAppend(h, s, init, step);
      FoldFrontSnoc(FoldBack(h, s, step), init, ch, step);
      assert init + [ch] == t;
    }
  }

  /** The hash of `s + t` continues from the hash of `s`: hashing can resume
      from any prefix's hash, folding the rest front to back. */
  lemma HashCodeAppend(s: seq<JChar>, t: seq<JChar>, n: nat)
    requires n < MaxHashes
    ensures HashCode(s + t, n) == FoldFront(HashCode(s, n), t, Step(n))
  {
    FoldBackAppend(HStart, s, t, Step(n));
  }

  /** The back-to-front definition and the front-to-back order of the Java
      loop give the same hash. */
  lemma HashCodeFrontToBack(s: seq<JChar>, n: nat)
    requires n < MaxHashes
    ensures HashCode(s, n) == FoldFront(HStart, s, Step(n))
  {
    FoldBackAppend(HStart, [], s, Step(n));
    assert [] + s == s;
  }
}
