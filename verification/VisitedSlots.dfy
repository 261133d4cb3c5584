/** One bit per dense graph slot, with the number of bits set. */
module VisitedSlots {
  import opened Bytes

  const WORD := 64

  type Word = bv64

  /** A bit's position in its word, in the six bits it takes. */
  function Index(bit: nat): bv6
    requires bit < WORD
  {
    bit as bv6
  }

  lemma IndexReadsBack(bit: nat)
    requires bit < WORD
    ensures Index(bit) as int == bit
  {
  }

  lemma IndexDistinct(bit: nat, other: nat)
    requires bit < WORD && other < WORD
    ensures Index(bit) == Index(other) <==> bit == other
  {
    IndexReadsBack(bit);
    IndexReadsBack(other);
  }

  function MaskAt(index: bv6): Word {
    1 << index
  }

  /** Some bit of the mask is set. */
  predicate Meets(word: Word, mask: Word) {
    word & mask != 0
  }

  lemma MasksMeet(index: bv6, other: bv6)
    ensures Meets(MaskAt(index), MaskAt(other)) <==> index == other
  {
  }

  lemma OrDistributes(word: Word, mask: Word, other: Word)
    ensures (word | mask) & other != 0 <==> word & other != 0 || mask & other != 0
  {
  }

  lemma JoinMeets(word: Word, mask: Word, other: Word)
    ensures Meets(word | mask, other) <==> Meets(word, other) || Meets(mask, other)
  {
    OrDistributes(word, mask, other);
  }

  predicate Bit(word: Word, bit: nat)
    requires bit < WORD
  {
    Meets(word, MaskAt(Index(bit)))
  }

  function WithBit(word: Word, bit: nat): Word
    requires bit < WORD
  {
    word | MaskAt(Index(bit))
  }

  /** Or-ing a mask sets the bit it selects and no other. */
  lemma SetBit(word: Word, bit: nat, other: nat)
    requires bit < WORD && other < WORD
    ensures Bit(WithBit(word, bit), other) <==> other == bit || Bit(word, other)
  {
    hide Index, MaskAt, Meets;
    IndexDistinct(bit, other);
    MasksMeet(Index(bit), Index(other));
    JoinMeets(word, MaskAt(Index(bit)), MaskAt(Index(other)));
  }

  // ---------------------------------------------------------------- words as a set

  predicate Holds(words: seq<Word>, slot: nat) {
    slot / WORD < |words| && Bit(words[slot / WORD], slot % WORD)
  }

  ghost predicate Represents(words: seq<Word>, slots: set<nat>) {
    forall slot: nat :: slot in slots <==> Holds(words, slot)
  }

  lemma SetRepresents(words: seq<Word>, slots: set<nat>, slot: nat)
    requires Represents(words, slots) && slot / WORD < |words|
    ensures Represents(words[slot / WORD := WithBit(words[slot / WORD], slot % WORD)], slots + {slot})
  {
    hide WithBit, Bit;
    var at := slot / WORD;
    var after := words[at := WithBit(words[at], slot % WORD)];
    forall other: nat ensures other in slots + {slot} <==> Holds(after, other) {
      if other / WORD == at {
        SetBit(words[at], slot % WORD, other % WORD);
      }
    }
  }

  lemma ZeroRepresents(words: seq<Word>)
    requires forall i :: 0 <= i < |words| ==> words[i] == 0
    ensures Represents(words, {})
  {
    forall slot: nat ensures !Holds(words, slot) {
      if slot / WORD < |words| {
        ZeroBit(words[slot / WORD], slot % WORD);
      }
    }
  }

  lemma ZeroBit(word: Word, bit: nat)
    requires word == 0 && bit < WORD
    ensures !Bit(word, bit)
  {
    hide Index;
  }

  /** Growing by zero words keeps the set. */
  lemma GrownRepresents(words: seq<Word>, more: seq<Word>, slots: set<nat>)
    requires Represents(words, slots) && words <= more
    requires forall i :: |words| <= i < |more| ==> more[i] == 0
    ensures Represents(more, slots)
  {
    hide Bit;
    forall slot: nat ensures slot in slots <==> Holds(more, slot) {
      if |words| <= slot / WORD < |more| {
        ZeroBit(more[slot / WORD], slot % WORD);
      }
    }
  }

  /** The visited set of one search: `slots` is what it stands for. */
  class Bitmap {
    var words: array<Word>
    var count: nat
    ghost var slots: set<nat>

    ghost predicate Valid()
      reads this, words
    {
      Represents(words[..], slots) && count == |slots|
    }

    /** Whether the bitmap has been prepared for every slot below `n`. */
    predicate Prepared(n: nat)
      reads this
    {
      n <= WORD * words.Length
    }

    constructor ()
      ensures Valid() && slots == {} && fresh(words)
    {
      words := new Word[0];
      count := 0;
      slots := {};
      new;
      ZeroRepresents(words[..]);
    }

    method Clear()
      requires Valid()
      modifies this`count, this`slots, words
      ensures Valid() && slots == {}
    {
      hide Represents;
      for i := 0 to words.Length
        invariant forall j :: 0 <= j < i ==> words[j] == 0
        modifies words
      {
        words[i] := 0;
      }
      count, slots := 0, {};
      ZeroRepresents(words[..]);
    }

    method Reset()
      modifies this
      ensures Valid() && slots == {} && !Prepared(1) && fresh(words)
    {
      words := new Word[0];
      count, slots := 0, {};
      ZeroRepresents(words[..]);
    }

    /** Prepares for `n` slots, keeping the set. Nothing changes when the slot count
        cannot be rounded up in a machine word or the allocator has no room. */
    method Reserve(n: nat, allocates: bool) returns (ok: bool)
      requires Valid()
      modifies this`words
      ensures Valid() && slots == old(slots) && count == old(count)
      ensures ok ==> Prepared(n)
      ensures ok <==> n <= U64_MAX - 63 && (old(Prepared(n)) || allocates)
      ensures words == old(words) || fresh(words)
      ensures forall s: nat :: old(Prepared(s)) ==> Prepared(s)
      ensures !ok || old(Prepared(n)) ==> words == old(words)
    {
      hide Represents;
      if n > U64_MAX - 63 {
        return false;
      }
      var needed := (n + 63) / WORD;
      if needed <= words.Length {
        return true;
      }
      if !allocates {
        return false;
      }
      var replacement := new Word[needed](i => 0);
      for i := 0 to words.Length
        invariant forall j :: 0 <= j < i ==> replacement[j] == words[j]
        modifies replacement
      {
        replacement[i] := words[i];
      }
      for i := words.Length to needed
        invariant forall j :: 0 <= j < words.Length ==> replacement[j] == words[j]
        invariant forall j :: words.Length <= j < i ==> replacement[j] == 0
        modifies replacement
      {
        replacement[i] := 0;
      }
      GrownRepresents(words[..], replacement[..], slots);
      words := replacement;
      return true;
    }

    method Test(slot: nat) returns (present: bool)
      requires Valid() && Prepared(slot + 1)
      ensures present <==> slot in slots
    {
      hide Bit;
      present := Bit(words[slot / WORD], slot % WORD);
      assert present <==> Holds(words[..], slot);
    }

    /** Adds a slot and reports whether it was already present. */
    method Set(slot: nat) returns (present: bool)
      requires Valid() && Prepared(slot + 1)
      modifies this`count, this`slots, words
      ensures Valid() && slots == old(slots) + {slot}
      ensures present <==> slot in old(slots)
    {
      hide Bit, WithBit, Represents;
      present := Test(slot);
      if present {
        assert slots + {slot} == slots;
      } else {
        SetRepresents(words[..], slots, slot);
        ghost var was := words[..];
        var at := slot / WORD;
        words[at] := WithBit(words[at], slot % WORD);
        assert words[..] == was[at := WithBit(was[at], slot % WORD)];
        count := count + 1;
        slots := slots + {slot};
      }
    }
  }
}
