/** 32-bit words as numbers, and their bits. */
module Words {

  const WORDS: nat := 0x1_0000_0000

  type uint32 = x: nat | x < WORDS

  /** Bit k of a word. */
  predicate Bit(w: nat, k: nat) {
    if k == 0 then w % 2 == 1 else Bit(w / 2, k - 1)
  }

  /** w >> k */
  function Shr(w: nat, k: nat): nat {
    if k == 0 then w else Shr(w / 2, k - 1)
  }

  /** 1 << k */
  function OneBit(k: nat): (r: nat)
    ensures r > 0
  {
    if k == 0 then 1 else 2 * OneBit(k - 1)
  }

  /** The bit operators, place by place. */
  function And(a: nat, b: nat): nat {
    if a == 0 || b == 0 then 0 else 2 * And(a / 2, b / 2) + if a % 2 == 1 && b % 2 == 1 then 1 else 0
  }

  function Or(a: nat, b: nat): nat {
    if a == 0 then b else if b == 0 then a
    else 2 * Or(a / 2, b / 2) + if a % 2 == 1 || b % 2 == 1 then 1 else 0
  }

  function Xor(a: nat, b: nat): nat {
    if a == 0 then b else if b == 0 then a
    else 2 * Xor(a / 2, b / 2) + if a % 2 != b % 2 then 1 else 0
  }

  function Not(w: uint32): uint32 {
    WORDS - 1 - w
  }

  lemma {:induction false} BitOfZero(k: nat)
    ensures !Bit(0, k)
  {
    if k > 0 {
      BitOfZero(k - 1);
    }
  }

  lemma {:induction false} BitOfAnd(a: nat, b: nat, k: nat)
    ensures Bit(And(a, b), k) <==> Bit(a, k) && Bit(b, k)
    decreases k
  {
    BitOfZero(k);
    if a != 0 && b != 0 && k > 0 {
      BitOfAnd(a / 2, b / 2, k - 1);
    }
  }

  lemma {:induction false} BitOfOr(a: nat, b: nat, k: nat)
    ensures Bit(Or(a, b), k) <==> Bit(a, k) || Bit(b, k)
    decreases k
  {
    BitOfZero(k);
    if a != 0 && b != 0 && k > 0 {
      BitOfOr(a / 2, b / 2, k - 1);
    }
  }

  lemma {:induction false} BitOfXor(a: nat, b: nat, k: nat)
    ensures Bit(Xor(a, b), k) <==> Bit(a, k) != Bit(b, k)
    decreases k
  {
    BitOfZero(k);
    if a != 0 && b != 0 && k > 0 {
      BitOfXor(a / 2, b / 2, k - 1);
    }
  }

  /** The operators stay within n bits. */
  lemma {:induction false} OpsFit(a: nat, b: nat, n: nat)
    requires a < OneBit(n) && b < OneBit(n)
    ensures And(a, b) < OneBit(n) && Or(a, b) < OneBit(n) && Xor(a, b) < OneBit(n)
    decreases n
  {
    if a != 0 && b != 0 && n > 0 {
      OpsFit(a / 2, b / 2, n - 1);
    }
  }

  lemma WordBits()
    ensures OneBit(32) == WORDS
  {
    assert OneBit(4) == 16;
    assert OneBit(8) == 16 * OneBit(4);
    assert OneBit(12) == 16 * OneBit(8);
    assert OneBit(16) == 16 * OneBit(12);
    assert OneBit(20) == 16 * OneBit(16);
    assert OneBit(24) == 16 * OneBit(20);
    assert OneBit(28) == 16 * OneBit(24);
    assert OneBit(32) == 16 * OneBit(28);
  }

  lemma WordOps(a: uint32, b: uint32)
    ensures And(a, b) < WORDS && Or(a, b) < WORDS && Xor(a, b) < WORDS
  {
    WordBits();
    OpsFit(a, b, 32);
  }

  lemma {:induction false} ComplementBits(w: nat, n: nat, k: nat)
    requires w < OneBit(n) && k < n
    ensures Bit(OneBit(n) - 1 - w, k) <==> !Bit(w, k)
    decreases n
  {
    if k > 0 {
      ComplementBits(w / 2, n - 1, k - 1);
      assert (OneBit(n) - 1 - w) / 2 == OneBit(n - 1) - 1 - w / 2;
    }
  }

  lemma BitOfNot(w: uint32, k: nat)
    requires k < 32
    ensures Bit(Not(w), k) <==> !Bit(w, k)
  {
    WordBits();
    ComplementBits(w, 32, k);
  }

  lemma {:induction false} BitOfOneBit(k: nat, j: nat)
    ensures Bit(OneBit(k), j) <==> j == k
    decreases j
  {
    if j > 0 {
      if k == 0 {
        BitOfZero(j - 1);
      } else {
        BitOfOneBit(k - 1, j - 1);
      }
    }
  }

  /** (1 << n) - 1 holds the lower n bits. */
  lemma {:induction false} BitOfMask(n: nat, k: nat)
    ensures Bit(OneBit(n) - 1, k) <==> k < n
    decreases k
  {
    if n == 0 {
      BitOfZero(k);
    } else if k > 0 {
      BitOfMask(n - 1, k - 1);
      assert (OneBit(n) - 1) / 2 == OneBit(n - 1) - 1;
    }
  }

  lemma {:induction false} OneBitGrows(k: nat, n: nat)
    requires k <= n
    ensures OneBit(k) <= OneBit(n)
    decreases n
  {
    if k < n {
      OneBitGrows(k, n - 1);
    }
  }

  lemma {:induction false} BitOfShr(w: nat, m: nat, k: nat)
    ensures Bit(Shr(w, m), k) == Bit(w, m + k)
    decreases m
  {
    if m > 0 {
      BitOfShr(w / 2, m - 1, k);
    }
  }

  lemma {:induction false} ShrNext(w: nat, m: nat)
    ensures Shr(w, m + 1) == Shr(w, m) / 2
    decreases m
  {
    if m > 0 {
      ShrNext(w / 2, m - 1);
    }
  }

  /** Different words differ in a bit. */
  lemma {:induction false} DifferentBit(a: nat, b: nat, n: nat) returns (k: nat)
    requires a < OneBit(n) && b < OneBit(n) && a != b
    ensures k < n && Bit(a, k) != Bit(b, k)
    decreases n
  {
    if a % 2 != b % 2 {
      k := 0;
    } else {
      k := DifferentBit(a / 2, b / 2, n - 1);
      k := k + 1;
    }
  }

  lemma SameBits(a: nat, b: nat, n: nat)
    requires a < OneBit(n) && b < OneBit(n) && forall k: nat | k < n :: Bit(a, k) == Bit(b, k)
    ensures a == b
  {
    if a != b {
      var k := DifferentBit(a, b, n);
    }
  }
}

/** Sets of numbers below a fixed size, packed into words. Places past the size may hold anything. */
module BitSets {
  import opened Words

  function NumWords(size: nat): nat {
    (size + 31) / 32
  }

  /** Place e is set. */
  predicate Has(words: seq<uint32>, e: nat) {
    e / 32 < |words| && Bit(words[e / 32], e % 32)
  }

  ghost function Members(words: seq<uint32>, size: nat): set<nat> {
    set e: nat | e < size && Has(words, e)
  }

  /** How many places below e are set. */
  function Count(words: seq<uint32>, e: nat): nat {
    if e == 0 then 0 else Count(words, e - 1) + if Has(words, e - 1) then 1 else 0
  }

  lemma {:induction false} CountIsSize(words: seq<uint32>, size: nat)
    ensures |Members(words, size)| == Count(words, size)
  {
    if size > 0 {
      CountIsSize(words, size - 1);
      assert Members(words, size) == Members(words, size - 1) + if Has(words, size - 1) then {size - 1} else {};
    } else {
      assert Members(words, 0) == {};
    }
  }

  function CountMin(a: nat, b: nat): nat {
    if a < b then a else b
  }

  /** No place from e up to f is set. */
  ghost predicate Gap(words: seq<uint32>, e: nat, f: nat) {
    forall x: nat | e <= x < f :: !Has(words, x)
  }

  lemma {:induction false} CountOverGap(words: seq<uint32>, e: nat, f: nat)
    requires e <= f && Gap(words, e, f)
    ensures Count(words, f) == Count(words, e)
  {
    if e < f {
      CountOverGap(words, e, f - 1);
    }
  }

  /** What is left of a word after the lower bits are shifted out tells whether more places of it are set. */
  lemma RestIsGap(words: seq<uint32>, w: nat, bit: nat, f: nat)
    requires w < |words| && bit <= 32 && Shr(words[w], bit) == 0 && f <= 32 * w + 32
    ensures Gap(words, 32 * w + bit, f)
  {
    forall x: nat | 32 * w + bit <= x < f ensures !Has(words, x) {
      BitOfShr(words[w], bit, x - 32 * w - bit);
      BitOfZero(x - 32 * w - bit);
      assert x / 32 == w && x % 32 == x - 32 * w;
    }
  }

  lemma ZeroIsGap(words: seq<uint32>, w: nat)
    requires w < |words| && words[w] == 0
    ensures Gap(words, 32 * w, 32 * w + 32)
  {
    RestIsGap(words, w, 0, 32 * w + 32);
  }

  lemma LowBit(words: seq<uint32>, w: nat, bit: nat)
    requires w < |words| && bit < 32
    ensures Has(words, 32 * w + bit) <==> Shr(words[w], bit) % 2 == 1
    ensures Shr(words[w], bit + 1) == Shr(words[w], bit) / 2
  {
    assert (32 * w + bit) / 32 == w && (32 * w + bit) % 32 == bit;
    BitOfShr(words[w], bit, 0);
    ShrNext(words[w], bit);
  }

  lemma ShiftedOut(w: uint32)
    ensures Shr(w, 32) == 0
  {
    WordBits();
    ShrDrops(w, 32);
  }

  lemma {:induction false} ShrDrops(w: nat, n: nat)
    requires w < OneBit(n)
    ensures Shr(w, n) == 0
  {
    if n > 0 {
      ShrDrops(w / 2, n - 1);
    }
  }

  class BitSet {
    const size: nat
    const theSet: array<uint32>

    ghost predicate Valid() {
      0 < size && size + 31 < WORDS && theSet.Length == NumWords(size)
    }

    /** The set that the words stand for. */
    ghost function Contents(): set<nat>
      reads theSet
    {
      Members(theSet[..], size)
    }

    /** The empty set; there is none without a word to hold it. */
    constructor (n: nat)
      requires 0 < n && n + 31 < WORDS
      ensures Valid() && fresh(theSet) && size == n && Contents() == {}
    {
      size := n;
      theSet := new uint32[NumWords(n)](i => 0);
      new;
      forall e: nat ensures !Has(theSet[..], e) {
        BitOfZero(e % 32);
      }
    }

    constructor Copy(bs: BitSet)
      requires bs.Valid()
      ensures Valid() && fresh(theSet) && size == bs.size && theSet[..] == bs.theSet[..]
    {
      size := bs.size;
      theSet := new uint32[bs.theSet.Length](i => 0);
      new;
      for i := 0 to theSet.Length
        invariant theSet[..i] == bs.theSet[..i]
      {
        theSet[i] := bs.theSet[i];
      }
    }

    method OrAssign(bs: BitSet) returns (ok: bool)
      requires Valid() && bs.Valid()
      modifies theSet
      ensures ok <==> size == bs.size
      ensures Contents() == if ok then old(Contents()) + old(bs.Contents()) else old(Contents())
    {
      if size != bs.size {
        return false;
      }
      ok := true;
      ghost var a, b := theSet[..], bs.theSet[..];
      for i := 0 to theSet.Length
        invariant forall j | 0 <= j < i :: theSet[j] == Or(a[j], b[j])
        invariant forall j | i <= j < theSet.Length :: theSet[j] == a[j] && bs.theSet[j] == b[j]
      {
        WordOps(a[i], b[i]);
        theSet[i] := Or(theSet[i], bs.theSet[i]);
      }
      forall e: nat ensures Has(theSet[..], e) <==> Has(a, e) || Has(b, e) {
        if e / 32 < |a| {
          BitOfOr(a[e / 32], b[e / 32], e % 32);
        }
      }
    }

    method AndAssign(bs: BitSet) returns (ok: bool)
      requires Valid() && bs.Valid()
      modifies theSet
      ensures ok <==> size == bs.size
      ensures Contents() == if ok then old(Contents()) * old(bs.Contents()) else old(Contents())
    {
      if size != bs.size {
        return false;
      }
      ok := true;
      ghost var a, b := theSet[..], bs.theSet[..];
      for i := 0 to theSet.Length
        invariant forall j | 0 <= j < i :: theSet[j] == And(a[j], b[j])
        invariant forall j | i <= j < theSet.Length :: theSet[j] == a[j] && bs.theSet[j] == b[j]
      {
        WordOps(a[i], b[i]);
        theSet[i] := And(theSet[i], bs.theSet[i]);
      }
      forall e: nat ensures Has(theSet[..], e) <==> Has(a, e) && Has(b, e) {
        if e / 32 < |a| {
          BitOfAnd(a[e / 32], b[e / 32], e % 32);
        }
      }
    }

    /** The members of exactly one of the sets. */
    method XorAssign(bs: BitSet) returns (ok: bool)
      requires Valid() && bs.Valid()
      modifies theSet
      ensures ok <==> size == bs.size
      ensures ok ==> Contents() == (old(Contents()) - old(bs.Contents())) + (old(bs.Contents()) - old(Contents()))
      ensures !ok ==> Contents() == old(Contents())
    {
      if size != bs.size {
        return false;
      }
      ok := true;
      ghost var a, b := theSet[..], bs.theSet[..];
      for i := 0 to theSet.Length
        invariant forall j | 0 <= j < i :: theSet[j] == Xor(a[j], b[j])
        invariant forall j | i <= j < theSet.Length :: theSet[j] == a[j] && bs.theSet[j] == b[j]
      {
        WordOps(a[i], b[i]);
        theSet[i] := Xor(theSet[i], bs.theSet[i]);
      }
      forall e: nat ensures Has(theSet[..], e) <==> Has(a, e) != Has(b, e) {
        if e / 32 < |a| {
          BitOfXor(a[e / 32], b[e / 32], e % 32);
        }
      }
    }

    method MinusAssign(bs: BitSet) returns (ok: bool)
      requires Valid() && bs.Valid()
      modifies theSet
      ensures ok <==> size == bs.size
      ensures Contents() == if ok then old(Contents()) - old(bs.Contents()) else old(Contents())
    {
      if size != bs.size {
        return false;
      }
      ok := true;
      ghost var a, b := theSet[..], bs.theSet[..];
      for i := 0 to theSet.Length
        invariant forall j | 0 <= j < i :: theSet[j] == And(a[j], Not(b[j]))
        invariant forall j | i <= j < theSet.Length :: theSet[j] == a[j] && bs.theSet[j] == b[j]
      {
        WordOps(a[i], Not(b[i]));
        theSet[i] := And(theSet[i], Not(bs.theSet[i]));
      }
      forall e: nat ensures Has(theSet[..], e) <==> Has(a, e) && !Has(b, e) {
        if e / 32 < |a| {
          BitOfAnd(a[e / 32], Not(b[e / 32]), e % 32);
          BitOfNot(b[e / 32], e % 32);
        }
      }
    }

    method Insert(e: nat)
      requires Valid()
      modifies theSet
      ensures Contents() == if e < size then old(Contents()) + {e} else old(Contents())
    {
      if e < size {
        ghost var a := theSet[..];
        OneBitFits(e % 32);
        WordOps(theSet[e / 32], OneBit(e % 32));
        theSet[e / 32] := Or(theSet[e / 32], OneBit(e % 32));
        forall x: nat ensures Has(theSet[..], x) <==> Has(a, x) || x == e {
          if x / 32 == e / 32 {
            BitOfOr(a[e / 32], OneBit(e % 32), x % 32);
            BitOfOneBit(e % 32, x % 32);
          }
        }
      }
    }

    method Remove(e: nat)
      requires Valid()
      modifies theSet
      ensures Contents() == old(Contents()) - {e}
    {
      if e < size {
        ghost var a := theSet[..];
        OneBitFits(e % 32);
        WordOps(theSet[e / 32], Not(OneBit(e % 32)));
        theSet[e / 32] := And(theSet[e / 32], Not(OneBit(e % 32)));
        forall x: nat ensures Has(theSet[..], x) <==> Has(a, x) && x != e {
          if x / 32 == e / 32 {
            BitOfAnd(a[e / 32], Not(OneBit(e % 32)), x % 32);
            BitOfNot(OneBit(e % 32), x % 32);
            BitOfOneBit(e % 32, x % 32);
          }
        }
      }
    }

    /** All numbers below the size that are not in the set; the places past the size are flipped, too. */
    method Complement() returns (temp: BitSet)
      requires Valid()
      ensures fresh(temp) && fresh(temp.theSet) && temp.Valid() && temp.size == size
      ensures forall e: nat :: e in temp.Contents() <==> e < size && e !in Contents()
    {
      temp := new BitSet.Copy(this);
      for i := 0 to theSet.Length
        invariant forall j | 0 <= j < i :: temp.theSet[j] == Not(theSet[j])
      {
        temp.theSet[i] := Not(theSet[i]);
      }
      forall e: nat | e < size ensures Has(temp.theSet[..], e) <==> !Has(theSet[..], e) {
        BitOfNot(theSet[e / 32], e % 32);
      }
    }

    /** A copy united with another set. */
    method Union(bs: BitSet) returns (ok: bool, temp: BitSet)
      requires Valid() && bs.Valid()
      ensures fresh(temp) && fresh(temp.theSet) && temp.Valid() && temp.size == bs.size
      ensures (ok <==> size == bs.size) && (ok ==> temp.Contents() == Contents() + bs.Contents())
    {
      temp := new BitSet.Copy(bs);
      ok := temp.OrAssign(this);
    }

    method Contains(e: nat) returns (r: bool)
      requires Valid()
      ensures r <==> e in Contents()
    {
      if e >= size {
        return false;
      }
      OneBitFits(e % 32);
      r := And(theSet[e / 32], OneBit(e % 32)) != 0;
      OneBitProbe(theSet[e / 32], e % 32);
    }

    /** Equality of the sets, whatever the places past the size hold. */
    method Equals(bs: BitSet) returns (r: bool)
      requires Valid() && bs.Valid()
      ensures r <==> size == bs.size && Contents() == bs.Contents()
    {
      if size != bs.size {
        return false;
      }
      var n := theSet.Length - 1;
      ghost var a, b := theSet[..], bs.theSet[..];
      for i := 0 to n
        invariant forall j | 0 <= j < i :: theSet[j] == bs.theSet[j]
      {
        if theSet[i] != bs.theSet[i] {
          DifferentWord(a, b, size, i, 32);
          return false;
        }
      }
      var bit := size % 32;
      if bit == 0 {
        r := theSet[n] == bs.theSet[n];
        MaskAll(theSet[n]);
        MaskAll(bs.theSet[n]);
      } else {
        r := And(theSet[n], OneBit(bit) - 1) == And(bs.theSet[n], OneBit(bit) - 1);
      }
      if r {
        SameMembers(a, b, size);
      } else {
        DifferentWord(a, b, size, n, if bit == 0 then 32 else bit);
      }
    }

    /** Adds the members from one word; ends at the size or where no more bits are set. */
    method CountWord(wordIdx: nat, start: nat) returns (count: nat, iter: nat)
      requires Valid() && wordIdx < theSet.Length && start == Count(theSet[..], 32 * wordIdx)
      ensures iter <= size && (iter == size ==> count == Count(theSet[..], size))
      ensures iter < size ==> count == Count(theSet[..], CountMin(32 * wordIdx + 32, size))
    {
      ghost var words := theSet[..];
      count := start;
      iter := 32 * wordIdx;
      var bit := 0;
      var crtWord: nat := theSet[wordIdx];
      while crtWord != 0 && iter < size
        invariant bit <= 32 && iter == 32 * wordIdx + bit <= size && crtWord == Shr(words[wordIdx], bit)
        invariant count == Count(words, iter)
        decreases size - iter
      {
        ShiftedOut(words[wordIdx]);
        LowBit(words, wordIdx, bit);
        if crtWord % 2 == 1 {
          count := count + 1;
        }
        bit := bit + 1;
        iter := iter + 1;
        crtWord := crtWord / 2;
      }
      if iter < size {
        RestIsGap(words, wordIdx, bit, CountMin(32 * wordIdx + 32, size));
        CountOverGap(words, iter, CountMin(32 * wordIdx + 32, size));
      }
    }

    /** The number of members. */
    method Size() returns (count: nat)
      requires Valid()
      ensures count == |Contents()|
    {
      var n := theSet.Length;
      ghost var words := theSet[..];
      count := 0;
      var wordIdx := 0;
      var more := true;
      while more
        invariant wordIdx <= n && count == Count(words, CountMin(32 * wordIdx, size)) && (wordIdx == n ==> !more)
        invariant !more ==> wordIdx == n
        decreases n - wordIdx, more
      {
        while wordIdx < n && theSet[wordIdx] == 0
          invariant wordIdx <= n && count == Count(words, CountMin(32 * wordIdx, size))
        {
          ZeroIsGap(words, wordIdx);
          CountOverGap(words, 32 * wordIdx, CountMin(32 * wordIdx + 32, size));
          wordIdx := wordIdx + 1;
        }
        if wordIdx >= n {
          break;
        }
        var iter;
        count, iter := CountWord(wordIdx, count);
        if iter >= size {
          CountIsSize(words, size);
          return;
        }
        wordIdx := wordIdx + 1;
        more := wordIdx < n;
      }
      CountIsSize(words, size);
    }

    method NonEmpty() returns (r: bool)
      requires Valid()
      ensures r <==> Contents() != {}
    {
      var n := theSet.Length - 1;
      ghost var a := theSet[..];
      ghost var zero := seq(|a|, _ => 0);
      forall e: nat ensures !Has(zero, e) {
        BitOfZero(e % 32);
      }
      for i := 0 to n
        invariant forall j | 0 <= j < i :: theSet[j] == 0
      {
        if theSet[i] != 0 {
          DifferentWord(a, zero, size, i, 32);
          return true;
        }
      }
      var bit := size % 32;
      if bit == 0 {
        r := theSet[n] != 0;
        MaskAll(theSet[n]);
        MaskAll(0);
      } else {
        r := And(theSet[n], OneBit(bit) - 1) != 0;
      }
      if r {
        DifferentWord(a, zero, size, n, if bit == 0 then 32 else bit);
      } else {
        SameMembers(a, zero, size);
      }
    }
  }

  const END_BIT_SET: uint32 := 0xffff_ffff

  /** iter is the first member from e on, or the end. */
  ghost predicate IsFirst(words: seq<uint32>, size: nat, e: nat, iter: uint32) {
    if iter == END_BIT_SET then Gap(words, e, size) else e <= iter < size && Has(words, iter) && Gap(words, e, iter)
  }

  class BitSetIterator {
    const bs: BitSet
    var wordIdx: nat
    var bit: nat
    var iter: uint32

    /** The iterator stands at a member, or at the end. */
    ghost predicate Valid()
      reads this, bs.theSet
    {
      && bs.Valid()
      && (iter != END_BIT_SET ==> iter < bs.size && bit < 32 && iter == 32 * wordIdx + bit && Has(bs.theSet[..], iter))
    }

    constructor (b: BitSet)
      requires b.Valid()
      ensures Valid() && bs == b && IsFirst(b.theSet[..], b.size, 0, iter)
    {
      bs := b;
      wordIdx, bit, iter := 0, 0, END_BIT_SET;
      new;
      FindWord();
      if wordIdx < bs.theSet.Length {
        FindBit(0);
      }
    }

    /** Skips zero words. */
    method FindWord()
      requires bs.Valid() && wordIdx <= bs.theSet.Length
      modifies this`wordIdx
      ensures old(wordIdx) <= wordIdx <= bs.theSet.Length
      ensures Gap(bs.theSet[..], 32 * old(wordIdx), 32 * wordIdx)
      ensures wordIdx < bs.theSet.Length ==> bs.theSet[wordIdx] != 0
    {
      while wordIdx < bs.theSet.Length && bs.theSet[wordIdx] == 0
        invariant old(wordIdx) <= wordIdx <= bs.theSet.Length
        invariant Gap(bs.theSet[..], 32 * old(wordIdx), 32 * wordIdx)
      {
        ZeroIsGap(bs.theSet[..], wordIdx);
        wordIdx := wordIdx + 1;
      }
    }

    /** Finds the first set place of the current word from a bit on; there is one, but it may be past the size. */
    method FindBit(from: nat)
      requires bs.Valid() && wordIdx < bs.theSet.Length && from < 32 && Shr(bs.theSet[wordIdx], from) != 0
      requires 32 * wordIdx + from <= bs.size
      modifies this`bit, this`iter
      ensures Valid() && IsFirst(bs.theSet[..], bs.size, 32 * wordIdx + from, iter)
    {
      ghost var words := bs.theSet[..];
      bit := from;
      iter := 32 * wordIdx + from;
      var crtWord := Shr(bs.theSet[wordIdx], from);
      while crtWord % 2 == 0 && iter < bs.size
        invariant from <= bit < 32 && crtWord == Shr(words[wordIdx], bit) != 0
        invariant iter == 32 * wordIdx + bit <= bs.size && Gap(words, 32 * wordIdx + from, iter)
        decreases bs.size - iter
      {
        LowBit(words, wordIdx, bit);
        ShiftedOut(words[wordIdx]);
        bit := bit + 1;
        iter := iter + 1;
        crtWord := crtWord / 2;
      }
      LowBit(words, wordIdx, bit);
      if iter >= bs.size {
        iter := END_BIT_SET;
      }
    }

    /** Goes on to the next member of a set that has not changed since. */
    method Next()
      requires Valid()
      modifies this
      ensures Valid()
      ensures old(iter) == END_BIT_SET ==> iter == END_BIT_SET
      ensures old(iter) != END_BIT_SET ==> IsFirst(bs.theSet[..], bs.size, old(iter) + 1, iter)
    {
      if iter == END_BIT_SET {
        return;
      }
      ghost var words := bs.theSet[..];
      ghost var e := iter + 1;
      var from := bit + 1;
      var crtWord := Shr(bs.theSet[wordIdx], from);
      if crtWord == 0 {
        RestIsGap(words, wordIdx, from, 32 * wordIdx + 32);
        wordIdx := wordIdx + 1;
        FindWord();
        assert Gap(words, e, 32 * wordIdx);
        if wordIdx >= bs.theSet.Length {
          iter := END_BIT_SET;
          return;
        }
        from := 0;
      } else {
        ShiftedOut(words[wordIdx]);
      }
      FindBit(from);
    }
  }

  /** A loop over the iterator meets the members in rising order, each once. */
  method Elements(bs: BitSet) returns (s: seq<nat>)
    requires bs.Valid()
    ensures forall i, j | 0 <= i < j < |s| :: s[i] < s[j]
    ensures forall e: nat :: e in s <==> e in bs.Contents()
  {
    ghost var words := bs.theSet[..];
    s := [];
    var it := new BitSetIterator(bs);
    ghost var e := 0;
    while it.iter != END_BIT_SET
      invariant it.Valid() && it.bs == bs && bs.theSet[..] == words
      invariant e <= bs.size && IsFirst(words, bs.size, e, it.iter)
      invariant forall i | 0 <= i < |s| :: s[i] < e
      invariant forall i, j | 0 <= i < j < |s| :: s[i] < s[j]
      invariant forall x: nat :: x in s <==> x < e && Has(words, x)
      decreases bs.size - e
    {
      s := s + [it.iter];
      e := it.iter + 1;
      it.Next();
    }
  }

  lemma OneBitFits(k: nat)
    requires k < 32
    ensures OneBit(k) < WORDS
  {
    WordBits();
    OneBitGrows(k + 1, 32);
  }

  lemma OneBitProbe(w: uint32, k: nat)
    requires k < 32
    ensures And(w, OneBit(k)) != 0 <==> Bit(w, k)
  {
    OneBitFits(k);
    WordOps(w, OneBit(k));
    WordBits();
    BitOfAnd(w, OneBit(k), k);
    BitOfOneBit(k, k);
    BitOfZero(k);
    if And(w, OneBit(k)) != 0 {
      var j := DifferentBit(And(w, OneBit(k)), 0, 32);
      BitOfZero(j);
      BitOfAnd(w, OneBit(k), j);
      BitOfOneBit(k, j);
    }
  }

  lemma BitOfMasked(w: nat, n: nat, k: nat)
    ensures Bit(And(w, OneBit(n) - 1), k) <==> Bit(w, k) && k < n
  {
    BitOfAnd(w, OneBit(n) - 1, k);
    BitOfMask(n, k);
  }

  /** The words agree in the lower n bits. */
  ghost predicate Agree(v: nat, w: nat, n: nat) {
    forall k: nat | k < n :: Bit(v, k) == Bit(w, k)
  }

  lemma MaskedAgree(v: uint32, w: uint32, n: nat)
    requires n <= 32
    ensures And(v, OneBit(n) - 1) == And(w, OneBit(n) - 1) ==> Agree(v, w, n)
    ensures And(v, OneBit(n) - 1) != And(w, OneBit(n) - 1) ==> !Agree(v, w, n)
  {
    var m := OneBit(n) - 1;
    WordBits();
    OneBitGrows(n, 32);
    OpsFit(v, m, 32);
    OpsFit(w, m, 32);
    if And(v, m) != And(w, m) {
      var k := DifferentBit(And(v, m), And(w, m), 32);
      BitOfMasked(v, n, k);
      BitOfMasked(w, n, k);
      assert k < n && Bit(v, k) != Bit(w, k);
    } else {
      forall k: nat | k < n ensures Bit(v, k) == Bit(w, k) {
        BitOfMasked(v, n, k);
        BitOfMasked(w, n, k);
      }
    }
  }

  lemma MaskAll(w: uint32)
    ensures And(w, OneBit(32) - 1) == w
  {
    WordBits();
    OpsFit(w, OneBit(32) - 1, 32);
    forall k: nat | k < 32 ensures Bit(And(w, OneBit(32) - 1), k) == Bit(w, k) {
      BitOfMasked(w, 32, k);
    }
    SameBits(And(w, OneBit(32) - 1), w, 32);
  }

  /** Words that differ in a place below the size make different sets. */
  lemma DifferentWord(a: seq<uint32>, b: seq<uint32>, size: nat, i: nat, n: nat)
    requires |a| == |b| && i < |a| && n <= 32 && 32 * i + n <= size
    requires And(a[i], OneBit(n) - 1) != And(b[i], OneBit(n) - 1) || (n == 32 && a[i] != b[i])
    ensures Members(a, size) != Members(b, size)
  {
    MaskAll(a[i]);
    MaskAll(b[i]);
    MaskedAgree(a[i], b[i], n);
    var k: nat :| k < n && Bit(a[i], k) != Bit(b[i], k);
    var e := 32 * i + k;
    assert e / 32 == i && e % 32 == k;
    assert Has(a, e) != Has(b, e);
    assert e in Members(a, size) <==> Has(a, e);
    assert e in Members(b, size) <==> Has(b, e);
  }

  lemma SameMembers(a: seq<uint32>, b: seq<uint32>, size: nat)
    requires 0 < size && |a| == |b| == NumWords(size)
    requires forall j | 0 <= j < |a| - 1 :: a[j] == b[j]
    requires var n := if size % 32 == 0 then 32 else size % 32;
      And(a[|a| - 1], OneBit(n) - 1) == And(b[|b| - 1], OneBit(n) - 1)
    ensures Members(a, size) == Members(b, size)
  {
    var n := if size % 32 == 0 then 32 else size % 32;
    MaskedAgree(a[|a| - 1], b[|b| - 1], n);
    forall e: nat | e < size ensures Has(a, e) == Has(b, e) {
      if e / 32 == |a| - 1 {
        assert e == 32 * (|a| - 1) + e % 32;
        assert e % 32 < n;
        assert Bit(a[|a| - 1], e % 32) == Bit(b[|b| - 1], e % 32);
      }
    }
  }
}
