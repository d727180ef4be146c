/** The opening of the repository's cuckoo test (Main.java:272-296)
    stated in the model: a table of capacity 10 keyed by strings. */
module CuckooExamples {

  import opened Wrappers
  import opened JavaInt
  import opened CuckooTable
  import opened CuckooInsert

  /** Java's `String.hashCode`: `h = 31 * h + c` over the characters,
      wrapping as an `int`. It agrees with Java for characters of the Basic
      Multilingual Plane, which Java stores as one UTF-16 unit each; the
      examples use only "A", "B" and "C". */
  function StringHash(s: string): (h: int)
    ensures IsInt(h)
    ensures |s| == 1 ==> h == s[0] as int
  {
    if s == [] then 0 else Wrap(31 * StringHash(s[..|s| - 1]) + s[|s| - 1] as int)
  }

  /** The slots of "A" (code 65), "B" (66) and "C" (67) at capacity 10. */
  lemma LetterSlots()
    ensures ValidCode(StringHash("A")) && ValidCode(StringHash("B")) && ValidCode(StringHash("C"))
    ensures H1(StringHash, "A", 10) == 5 && H2(StringHash, "A", 10) == 4
    ensures H1(StringHash, "B", 10) == 6 && H2(StringHash, "B", 10) == 5
    ensures H1(StringHash, "C", 10) == 7 && H2(StringHash, "C", 10) == 6
  {
    assert StringHash("A") == 65 && StringHash("B") == 66 && StringHash("C") == 67;
  }

  /** The table of capacity 10 after the first `k` puts of the test. */
  function Opening(k: nat): (t: Slots<string, string>)
    ensures |t| == 10
    ensures forall i :: 0 <= i < 10 && t[i].Some? ==>
      || (t[i].value.key == "A" && (i == 4 || i == 5))
      || (t[i].value.key == "B" && i == 6)
      || (t[i].value.key == "C" && i == 7)
  {
    var t0: Slots<string, string> := EmptySlots(10);
    if k == 0 then t0
    else if k == 1 then t0[5 := Some(Entry("A", "AA"))]
    else if k == 2 then Opening(1)[5 := Some(Entry("A", "LL"))][4 := Some(Entry("A", "AA"))]
    else if k == 3 then Opening(2)[6 := Some(Entry("B", "BB"))]
    else Opening(3)[7 := Some(Entry("C", "CC"))]
  }

  /** A table of capacity 10 that holds "A" only in slots 4 and 5, "B" only
      in slot 6 and "C" only in slot 7 is well placed. */
  lemma LettersPlaced(t: Slots<string, string>)
    requires |t| == 10
    requires forall i :: 0 <= i < 10 && t[i].Some? ==>
      || (t[i].value.key == "A" && (i == 4 || i == 5))
      || (t[i].value.key == "B" && i == 6)
      || (t[i].value.key == "C" && i == 7)
    ensures WellPlaced(t, StringHash)
  {
    LetterSlots();
  }

  /** Every table of the opening is well placed. */
  lemma OpeningPlaced(k: nat)
    ensures WellPlaced(Opening(k), StringHash)
  {
    var t := Opening(k);
    LettersPlaced(t);
  }

  /** On any well-placed table of capacity 10, a put of "A", "B" or "C"
      whose primary slot (5, 6 or 7) is free and whose pair is not already
      in the secondary slot (4, 5 or 6) fills the primary slot. */
  lemma PutLetterHome(t: Slots<string, string>, e: Entry<string, string>, home: nat, fuel: nat)
    requires |t| == 10 && WellPlaced(t, StringHash)
    requires (e.key, home) in {("A", 5), ("B", 6), ("C", 7)}
    requires t[home] == None && t[home - 1] != Some(e)
    ensures Put(t, StringHash, e, fuel) == Some(t[home := Some(e)])
  {
    LetterSlots();
    PutFreeHome(t, StringHash, e, fuel);
  }

  /** `put("A","AA")` lands in slot 5, the primary slot of "A". */
  lemma PutFirstA(fuel: nat)
    ensures WellPlaced(Opening(0), StringHash)
    ensures Put(Opening(0), StringHash, Entry("A", "AA"), fuel) == Some(Opening(1))
  {
    OpeningPlaced(0);
    PutLetterHome(Opening(0), Entry("A", "AA"), 5, fuel);
  }

  /** `put("A","LL")` on any well-placed table of capacity 10 with <A, AA>
      in slot 5 and slot 4 free: <A, LL> takes slot 5 and <A, AA> moves to
      slot 4, its secondary slot. */
  lemma SecondAKicksFirst(t: Slots<string, string>, fuel: nat)
    requires |t| == 10 && WellPlaced(t, StringHash)
    requires t[4] == None && t[5] == Some(Entry("A", "AA"))
    ensures Put(t, StringHash, Entry("A", "LL"), fuel)
         == Some(t[5 := Some(Entry("A", "LL"))][4 := Some(Entry("A", "AA"))])
  {
    LetterSlots();
    assert OtherSlot(StringHash, "A", 10, 5) == 4;
    PutKickOnce(t, StringHash, Entry("A", "LL"), fuel);
  }

  /** `put("A","LL")` takes slot 5 and moves <A, AA> to slot 4: pairs with
      one key but different values coexist. */
  lemma PutSecondA(fuel: nat)
    ensures WellPlaced(Opening(1), StringHash)
    ensures Put(Opening(1), StringHash, Entry("A", "LL"), fuel) == Some(Opening(2))
  {
    OpeningPlaced(1);
    var t1 := Opening(1);
    SecondAKicksFirst(t1, fuel);
  }

  /** `put("B","BB")` lands in slot 6. */
  lemma PutB(fuel: nat)
    ensures WellPlaced(Opening(2), StringHash)
    ensures Put(Opening(2), StringHash, Entry("B", "BB"), fuel) == Some(Opening(3))
  {
    OpeningPlaced(2);
    PutLetterHome(Opening(2), Entry("B", "BB"), 6, fuel);
  }

  /** `put("C","CC")` lands in slot 7. */
  lemma PutC(fuel: nat)
    ensures WellPlaced(Opening(3), StringHash)
    ensures Put(Opening(3), StringHash, Entry("C", "CC"), fuel) == Some(Opening(4))
  {
    OpeningPlaced(3);
    var t3 := Opening(3);
    assert t3[7] == Opening(2)[7] == None;
    PutLetterHome(t3, Entry("C", "CC"), 7, fuel);
  }

  /** After the four puts the capacity is still 10 and four pairs are
      stored, in slots 4 to 7. */
  lemma OpeningSize()
    ensures |Opening(4)| == 10 && Size(Opening(4)) == 4
  {
    var t := Opening(4);
    assert forall i :: 0 <= i < 10 ==> (t[i].Some? <==> 4 <= i <= 7);
    assert OccupiedSlots(t) == {4, 5, 6, 7};
  }

  /** On any table of capacity 10 with <A, AA> in slot 4, <A, LL> in slot 5
      and <C, CC> in slot 7, `get` answers from the primary slot of the key
      and `remove("A","AA")` clears the secondary slot of "A". */
  lemma LookupsAtLetters(t: Slots<string, string>)
    requires |t| == 10
    requires t[4] == Some(Entry("A", "AA")) && t[5] == Some(Entry("A", "LL")) && t[7] == Some(Entry("C", "CC"))
    ensures Get(t, StringHash, "A") == Some("LL")
    ensures Get(t, StringHash, "C") == Some("CC")
    ensures Remove(t, StringHash, "A", "AA") == (t[4 := None], true)
  {
    LetterSlots();
  }

  /** On the table after the four puts `get("A")` answers "LL" from the
      primary slot 5 although <A, AA> is stored too. */
  lemma OpeningGetA()
    ensures Get(Opening(4), StringHash, "A") == Some("LL")
  {
    LookupsAtLetters(Opening(4));
  }

  /** `get("C")` finds "CC" in slot 7. */
  lemma OpeningGetC()
    ensures Get(Opening(4), StringHash, "C") == Some("CC")
  {
    LookupsAtLetters(Opening(4));
  }

  /** `remove("A","AA")` clears the secondary slot 4. */
  lemma OpeningRemove()
    ensures Remove(Opening(4), StringHash, "A", "AA") == (Opening(4)[4 := None], true)
  {
    LookupsAtLetters(Opening(4));
  }
}
