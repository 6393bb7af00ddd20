// The allocator's bitmap of units: 64-bit words, scanned and changed word by word.
// A word is the sequence of its bits, lowest first.
module BitSets {
  const WORD_BITS: nat := 64
  const VALID_BITS: nat := 2048
  const WORDS: nat := 32

  type Word = w: seq<bool> | |w| == WORD_BITS witness seq(WORD_BITS, _ => false)

  const NONE: Word := seq(WORD_BITS, _ => false)
  const ALL: Word := seq(WORD_BITS, _ => true)

  function Shr(w: Word, k: nat): (v: Word)
    requires k < WORD_BITS
    ensures forall i :: 0 <= i < WORD_BITS ==> v[i] == (i + k < WORD_BITS && w[i + k])
  {
    seq(WORD_BITS, i requires 0 <= i < WORD_BITS => i + k < WORD_BITS && w[i + k])
  }

  function Shl(w: Word, k: nat): (v: Word)
    requires k < WORD_BITS
    ensures forall i :: 0 <= i < WORD_BITS ==> v[i] == (k <= i && w[i - k])
  {
    seq(WORD_BITS, i requires 0 <= i < WORD_BITS => k <= i && w[i - k])
  }

  function Not(w: Word): (v: Word)
    ensures forall i :: 0 <= i < WORD_BITS ==> v[i] == !w[i]
  {
    seq(WORD_BITS, i requires 0 <= i < WORD_BITS => !w[i])
  }

  function Or(w: Word, u: Word): (v: Word)
    ensures forall i :: 0 <= i < WORD_BITS ==> v[i] == (w[i] || u[i])
  {
    seq(WORD_BITS, i requires 0 <= i < WORD_BITS => w[i] || u[i])
  }

  function And(w: Word, u: Word): (v: Word)
    ensures forall i :: 0 <= i < WORD_BITS ==> v[i] == (w[i] && u[i])
  {
    seq(WORD_BITS, i requires 0 <= i < WORD_BITS => w[i] && u[i])
  }

  // (1 << n) - 1
  function LowBits(n: nat): (v: Word)
    requires n < WORD_BITS
    ensures forall i :: 0 <= i < WORD_BITS ==> v[i] == (i < n)
  {
    seq(WORD_BITS, i requires 0 <= i < WORD_BITS => i < n)
  }

  function LowestFrom(w: Word, i: nat): (j: nat)
    requires i < WORD_BITS && exists k :: i <= k < WORD_BITS && w[k]
    ensures i <= j < WORD_BITS && w[j] && forall k :: i <= k < j ==> !w[k]
    decreases WORD_BITS - i
  {
    if w[i] then i else LowestFrom(w, i + 1)
  }

  function TrailingZeros(w: Word): (j: nat)
    requires w != NONE
    ensures j < WORD_BITS && w[j] && forall k :: 0 <= k < j ==> !w[k]
  {
    NotNone(w);
    LowestFrom(w, 0)
  }

  lemma NotNone(w: Word)
    requires w != NONE
    ensures exists k :: 0 <= k < WORD_BITS && w[k]
  {
    var k :| 0 <= k < WORD_BITS && w[k] != NONE[k];
  }

  // ---- the whole set ----

  ghost predicate IsBitSet(words: seq<Word>) {
    |words| == WORDS
  }

  ghost predicate Bit(words: seq<Word>, i: nat)
    requires IsBitSet(words) && i < VALID_BITS
  {
    words[i / WORD_BITS][i % WORD_BITS]
  }

  ghost function Bits(words: seq<Word>): (b: seq<bool>)
    requires IsBitSet(words)
    ensures |b| == VALID_BITS
  {
    seq(VALID_BITS, i requires 0 <= i < VALID_BITS => Bit(words, i))
  }

  lemma BitAt(words: seq<Word>, k: nat, j: nat)
    requires IsBitSet(words) && k < WORDS && j < WORD_BITS
    ensures k * WORD_BITS + j < VALID_BITS && Bits(words)[k * WORD_BITS + j] == words[k][j]
  {}

  lemma Split(i: nat)
    requires i < VALID_BITS
    ensures i / WORD_BITS < WORDS && i % WORD_BITS < WORD_BITS && i == i / WORD_BITS * WORD_BITS + i % WORD_BITS
  {}

  // No bit from s to e has the value.
  ghost predicate NoneIs(bits: seq<bool>, s: nat, e: nat, value: bool) {
    forall i :: s <= i < e && i < |bits| ==> bits[i] != value
  }

  lemma NoneInWord(words: seq<Word>, k: nat, s: nat, e: nat, value: bool)
    requires IsBitSet(words) && k < WORDS && k * WORD_BITS <= s && e <= (k + 1) * WORD_BITS
    requires forall j :: s - k * WORD_BITS <= j < e - k * WORD_BITS ==> words[k][j] != value
    ensures NoneIs(Bits(words), s, e, value)
  {
    forall i | s <= i < e && i < VALID_BITS ensures Bits(words)[i] != value {
      BitAt(words, k, i - k * WORD_BITS);
    }
  }

  lemma NoneJoin(bits: seq<bool>, s: nat, m: nat, e: nat, value: bool)
    requires NoneIs(bits, s, m, value) && NoneIs(bits, m, e, value)
    ensures NoneIs(bits, s, e, value)
  {}

  // Where the first cleared bit is, or the number of bits.
  method FindFirstClear(words: seq<Word>, bitStart: nat) returns (index: nat)
    requires IsBitSet(words) && bitStart < VALID_BITS
    ensures bitStart <= index <= VALID_BITS && NoneIs(Bits(words), bitStart, index, false)
    ensures index < VALID_BITS ==> !Bits(words)[index]
  {
    hide Bits, NoneIs;
    Split(bitStart);
    var wordStart := bitStart / WORD_BITS;
    var word := Shr(Not(words[wordStart]), bitStart % WORD_BITS);
    if word != NONE {
      index := InFirstWord(words, bitStart, word, false);
      return;
    }
    FirstWordNone(words, bitStart, word, false);
    var i := wordStart + 1;
    while i < WORDS
      invariant wordStart < i <= WORDS && NoneIs(Bits(words), bitStart, i * WORD_BITS, false)
    {
      word := Not(words[i]);
      if word != NONE {
        index := i * WORD_BITS + TrailingZeros(word);
        InWord(words, bitStart, i, TrailingZeros(word), false);
        return;
      }
      WordNone(words, bitStart, i, word, false);
      i := i + 1;
    }
    index := VALID_BITS;
  }

  // The words looked at for a set bit: the first one whole, and all that begin before
  // bitEnd.
  function ScanEnd(bitStart: nat, bitEnd: nat): (end: nat)
    ensures end >= bitEnd && end > bitStart
  {
    var first, last := (bitStart / WORD_BITS + 1) * WORD_BITS, (bitEnd + WORD_BITS - 1) / WORD_BITS * WORD_BITS;
    if first < last then last else first
  }

  // Where the first set bit of these words is, which may be past bitEnd, or bitEnd if
  // they have none.
  method FindFirstSet(words: seq<Word>, bitStart: nat, bitEnd: nat) returns (index: nat)
    requires IsBitSet(words) && bitStart < VALID_BITS && bitStart <= bitEnd <= VALID_BITS
    ensures if NoneIs(Bits(words), bitStart, ScanEnd(bitStart, bitEnd), true) then index == bitEnd
            else bitStart <= index < ScanEnd(bitStart, bitEnd) && index < VALID_BITS && Bits(words)[index] && NoneIs(Bits(words), bitStart, index, true)
    ensures bitStart <= index <= VALID_BITS && NoneIs(Bits(words), bitStart, if index < bitEnd then index else bitEnd, true)
    ensures index < bitEnd ==> Bits(words)[index]
  {
    hide Bits, NoneIs;
    Split(bitStart);
    var wordStart := bitStart / WORD_BITS;
    var word := Shr(words[wordStart], bitStart % WORD_BITS);
    if word != NONE {
      index := InFirstWord(words, bitStart, word, true);
      FoundSet(words, bitStart, bitEnd, index);
      return;
    }
    FirstWordNone(words, bitStart, word, true);
    var wordEnd := (bitEnd + WORD_BITS - 1) / WORD_BITS;
    var i := wordStart + 1;
    while i < wordEnd
      invariant wordStart < i && (i <= wordEnd || i == wordStart + 1) && i <= WORDS && NoneIs(Bits(words), bitStart, i * WORD_BITS, true)
    {
      word := words[i];
      if word != NONE {
        index := i * WORD_BITS + TrailingZeros(word);
        InWord(words, bitStart, i, TrailingZeros(word), true);
        FoundSet(words, bitStart, bitEnd, index);
        return;
      }
      WordNone(words, bitStart, i, word, true);
      i := i + 1;
    }
    index := bitEnd;
    assert i * WORD_BITS == ScanEnd(bitStart, bitEnd);
    NoneShorter(Bits(words), bitStart, i * WORD_BITS, bitEnd, true);
  }

  lemma FoundSet(words: seq<Word>, bitStart: nat, bitEnd: nat, index: nat)
    requires IsBitSet(words) && bitStart <= index < VALID_BITS && Bits(words)[index] && NoneIs(Bits(words), bitStart, index, true)
    ensures index < ScanEnd(bitStart, bitEnd) ==> !NoneIs(Bits(words), bitStart, ScanEnd(bitStart, bitEnd), true)
    ensures NoneIs(Bits(words), bitStart, if index < bitEnd then index else bitEnd, true)
  {
    hide Bits, ScanEnd;
  }

  // With bit 5 set alone, the first set bit before bit 3 is said to be bit 5.
  method FindPastEnd(words: seq<Word>) returns (index: nat)
    requires IsBitSet(words) && forall i :: 0 <= i < VALID_BITS ==> (Bits(words)[i] <==> i == 5)
    ensures index == 5
  {
    hide Bits;
    assert Bits(words)[5] && ScanEnd(0, 3) == 64;
    index := FindFirstSet(words, 0, 3);
  }

  lemma NoneShorter(bits: seq<bool>, s: nat, e: nat, f: nat, value: bool)
    requires NoneIs(bits, s, e, value) && f <= e
    ensures NoneIs(bits, s, f, value)
  {}

  // The first word, shifted down to the start.
  method InFirstWord(words: seq<Word>, bitStart: nat, word: Word, ghost value: bool) returns (index: nat)
    requires IsBitSet(words) && bitStart < VALID_BITS && word != NONE
    requires var w := words[bitStart / WORD_BITS]; word == Shr(if value then w else Not(w), bitStart % WORD_BITS)
    ensures bitStart <= index < VALID_BITS && Bits(words)[index] == value && NoneIs(Bits(words), bitStart, index, value)
    ensures index < (bitStart / WORD_BITS + 1) * WORD_BITS
  {
    hide Bits, NoneIs;
    var offset := 0;
    if !word[0] {
      offset := TrailingZeros(word);
    }
    index := bitStart + offset;
    ShiftedAt(words, bitStart, offset, word, value);
  }

  lemma ShiftedAt(words: seq<Word>, bitStart: nat, offset: nat, word: Word, value: bool)
    requires IsBitSet(words) && bitStart < VALID_BITS && offset < WORD_BITS && word[offset] && forall k :: 0 <= k < offset ==> !word[k]
    requires var w := words[bitStart / WORD_BITS]; word == Shr(if value then w else Not(w), bitStart % WORD_BITS)
    ensures bitStart + offset < VALID_BITS && Bits(words)[bitStart + offset] == value
    ensures bitStart + offset < (bitStart / WORD_BITS + 1) * WORD_BITS
    ensures NoneIs(Bits(words), bitStart, bitStart + offset, value)
  {
    hide Bits, NoneIs;
    Split(bitStart);
    var k, m := bitStart / WORD_BITS, bitStart % WORD_BITS;
    BitAt(words, k, m + offset);
    forall j | m <= j < m + offset ensures words[k][j] != value {
      assert !word[j - m];
    }
    NoneInWord(words, k, bitStart, bitStart + offset, value);
  }

  lemma FirstWordNone(words: seq<Word>, bitStart: nat, word: Word, value: bool)
    requires IsBitSet(words) && bitStart < VALID_BITS && word == NONE
    requires var w := words[bitStart / WORD_BITS]; word == Shr(if value then w else Not(w), bitStart % WORD_BITS)
    ensures NoneIs(Bits(words), bitStart, (bitStart / WORD_BITS + 1) * WORD_BITS, value)
  {
    hide Bits, NoneIs;
    Split(bitStart);
    var k, m := bitStart / WORD_BITS, bitStart % WORD_BITS;
    forall j | m <= j < WORD_BITS ensures words[k][j] != value {
      assert !word[j - m];
    }
    NoneInWord(words, k, bitStart, (k + 1) * WORD_BITS, value);
  }

  lemma InWord(words: seq<Word>, bitStart: nat, k: nat, j: nat, value: bool)
    requires IsBitSet(words) && k < WORDS && j < WORD_BITS && bitStart <= k * WORD_BITS && NoneIs(Bits(words), bitStart, k * WORD_BITS, value)
    requires words[k][j] == value && forall i :: 0 <= i < j ==> words[k][i] != value
    ensures k * WORD_BITS + j < VALID_BITS && Bits(words)[k * WORD_BITS + j] == value
    ensures NoneIs(Bits(words), bitStart, k * WORD_BITS + j, value)
  {
    hide Bits, NoneIs;
    BitAt(words, k, j);
    NoneInWord(words, k, k * WORD_BITS, k * WORD_BITS + j, value);
    NoneJoin(Bits(words), bitStart, k * WORD_BITS, k * WORD_BITS + j, value);
  }

  lemma WordNone(words: seq<Word>, bitStart: nat, k: nat, word: Word, value: bool)
    requires IsBitSet(words) && k < WORDS && NoneIs(Bits(words), bitStart, k * WORD_BITS, value)
    requires word == (if value then words[k] else Not(words[k])) && word == NONE
    ensures NoneIs(Bits(words), bitStart, (k + 1) * WORD_BITS, value)
  {
    hide Bits, NoneIs;
    assert forall j :: 0 <= j < WORD_BITS ==> !word[j];
    NoneInWord(words, k, k * WORD_BITS, (k + 1) * WORD_BITS, value);
    NoneJoin(Bits(words), bitStart, k * WORD_BITS, (k + 1) * WORD_BITS, value);
  }

  // ---- changing a range ----

  ghost function Filled<T>(values: seq<T>, s: nat, e: nat, value: T): (b: seq<T>)
    ensures |b| == |values|
  {
    seq(|values|, i requires 0 <= i < |values| => if s <= i < e then value else values[i])
  }

  // The words up to the k-th have their part of the range, the others are as before.
  ghost predicate FilledUpTo(before: seq<Word>, words: seq<Word>, s: nat, e: nat, value: bool, k: nat)
    requires IsBitSet(before)
  {
    && |words| == WORDS && k <= WORDS
    && (forall i, j :: 0 <= i < k && 0 <= j < WORD_BITS ==> words[i][j] == if s <= i * WORD_BITS + j < e then value else before[i][j])
    && (forall i :: k <= i < WORDS ==> words[i] == before[i])
  }

  lemma FilledStart(words: seq<Word>, s: nat, e: nat, value: bool)
    requires IsBitSet(words) && s < VALID_BITS
    ensures FilledUpTo(words, words, s, e, value, s / WORD_BITS)
  {
    Split(s);
  }

  lemma FilledWord(before: seq<Word>, words: seq<Word>, s: nat, e: nat, value: bool, k: nat, word: Word)
    requires IsBitSet(before) && FilledUpTo(before, words, s, e, value, k) && k < WORDS
    requires forall j :: 0 <= j < WORD_BITS ==> word[j] == if s <= k * WORD_BITS + j < e then value else before[k][j]
    ensures FilledUpTo(before, words[k := word], s, e, value, k + 1)
  {}

  lemma FilledAll(before: seq<Word>, words: seq<Word>, s: nat, e: nat, value: bool, k: nat)
    requires IsBitSet(before) && FilledUpTo(before, words, s, e, value, k) && e <= k * WORD_BITS
    ensures IsBitSet(words) && Bits(words) == Filled(Bits(before), s, e, value)
  {
    forall i | 0 <= i < VALID_BITS ensures Bits(words)[i] == Filled(Bits(before), s, e, value)[i] {
      Split(i);
      var q, j := i / WORD_BITS, i % WORD_BITS;
      assert words[q][j] == if q < k then (if s <= q * WORD_BITS + j < e then value else before[q][j]) else before[q][j];
    }
  }

  lemma FilledNone(words: seq<Word>, s: nat, e: nat, value: bool)
    requires IsBitSet(words) && s >= e
    ensures Bits(words) == Filled(Bits(words), s, e, value)
  {}

  // Sets the bits from bitStart to bitEnd.
  method SetRange(before: seq<Word>, bitStart: nat, bitEnd: nat) returns (words: seq<Word>)
    requires IsBitSet(before) && bitStart < VALID_BITS && bitEnd <= VALID_BITS
    ensures IsBitSet(words) && Bits(words) == Filled(Bits(before), bitStart, bitEnd, true)
  {
    hide Bits, Filled, FilledUpTo;
    words := before;
    if bitStart >= bitEnd {
      FilledNone(before, bitStart, bitEnd, true);
      return;
    }
    Split(bitStart);
    FilledStart(before, bitStart, bitEnd, true);
    var wordStart, wordEnd, first := bitStart / WORD_BITS, bitEnd / WORD_BITS, bitStart % WORD_BITS;
    if wordEnd == wordStart {
      var mask := Shl(LowBits(bitEnd % WORD_BITS - first), first);
      FilledWord(before, words, bitStart, bitEnd, true, wordStart, Or(words[wordStart], mask));
      words := words[wordStart := Or(words[wordStart], mask)];
      FilledAll(before, words, bitStart, bitEnd, true, wordStart + 1);
      return;
    }
    FilledWord(before, words, bitStart, bitEnd, true, wordStart, Or(words[wordStart], Shl(ALL, first)));
    words := words[wordStart := Or(words[wordStart], Shl(ALL, first))];
    var i := wordStart + 1;
    while i < wordEnd
      invariant wordStart < i <= wordEnd && |words| == WORDS && FilledUpTo(before, words, bitStart, bitEnd, true, i)
    {
      FilledWord(before, words, bitStart, bitEnd, true, i, ALL);
      words := words[i := ALL];
      i := i + 1;
    }
    words := LastWord(before, words, bitStart, bitEnd, true);
  }

  // Clears the bits from bitStart to bitEnd.
  method ClearRange(before: seq<Word>, bitStart: nat, bitEnd: nat) returns (words: seq<Word>)
    requires IsBitSet(before) && bitStart < VALID_BITS && bitEnd <= VALID_BITS
    ensures IsBitSet(words) && Bits(words) == Filled(Bits(before), bitStart, bitEnd, false)
  {
    hide Bits, Filled, FilledUpTo;
    words := before;
    if bitStart >= bitEnd {
      FilledNone(before, bitStart, bitEnd, false);
      return;
    }
    Split(bitStart);
    FilledStart(before, bitStart, bitEnd, false);
    var wordStart, wordEnd, first := bitStart / WORD_BITS, bitEnd / WORD_BITS, bitStart % WORD_BITS;
    if wordEnd == wordStart {
      var mask := Shl(LowBits(bitEnd % WORD_BITS - first), first);
      FilledWord(before, words, bitStart, bitEnd, false, wordStart, And(words[wordStart], Not(mask)));
      words := words[wordStart := And(words[wordStart], Not(mask))];
      FilledAll(before, words, bitStart, bitEnd, false, wordStart + 1);
      return;
    }
    FilledWord(before, words, bitStart, bitEnd, false, wordStart, And(words[wordStart], Not(Shl(ALL, first))));
    words := words[wordStart := And(words[wordStart], Not(Shl(ALL, first)))];
    var i := wordStart + 1;
    while i < wordEnd
      invariant wordStart < i <= wordEnd && |words| == WORDS && FilledUpTo(before, words, bitStart, bitEnd, false, i)
    {
      FilledWord(before, words, bitStart, bitEnd, false, i, NONE);
      words := words[i := NONE];
      i := i + 1;
    }
    words := LastWord(before, words, bitStart, bitEnd, false);
  }

  // The first few bits of the last word, if the range ends inside one.
  method LastWord(ghost before: seq<Word>, middle: seq<Word>, bitStart: nat, bitEnd: nat, value: bool) returns (words: seq<Word>)
    requires IsBitSet(before) && bitStart < bitEnd <= VALID_BITS && bitStart / WORD_BITS < bitEnd / WORD_BITS
    requires FilledUpTo(before, middle, bitStart, bitEnd, value, bitEnd / WORD_BITS)
    ensures IsBitSet(words) && Bits(words) == Filled(Bits(before), bitStart, bitEnd, value)
  {
    hide Bits, Filled;
    words := middle;
    var wordEnd := bitEnd / WORD_BITS;
    var lastWordBits := bitEnd - wordEnd * WORD_BITS;
    if lastWordBits > 0 {
      var mask := LowBits(lastWordBits);
      var word := if value then Or(words[wordEnd], mask) else And(words[wordEnd], Not(mask));
      FilledWord(before, words, bitStart, bitEnd, value, wordEnd, word);
      words := words[wordEnd := word];
      FilledAll(before, words, bitStart, bitEnd, value, wordEnd + 1);
    } else {
      FilledAll(before, words, bitStart, bitEnd, value, wordEnd);
    }
  }

  // ---- counting ----

  function Ones(bits: seq<bool>, s: nat, e: nat): (n: nat)
    requires e <= |bits|
    ensures s <= e ==> n <= e - s
    decreases e
  {
    if s >= e then 0 else Ones(bits, s, e - 1) + if bits[e - 1] then 1 else 0
  }

  function PopCount(w: Word): (n: nat) {
    Ones(w, 0, WORD_BITS)
  }

  lemma {:induction false} OnesSame(b: seq<bool>, s: nat, c: seq<bool>, t: nat, n: nat)
    requires s + n <= |b| && t + n <= |c| && forall i :: s <= i < s + n ==> b[i] == c[i - s + t]
    ensures Ones(b, s, s + n) == Ones(c, t, t + n)
  {
    if n > 0 {
      OnesSame(b, s, c, t, n - 1);
      var last := s + n - 1;
      assert b[last] == c[last - s + t];
    }
  }

  lemma {:induction false} OnesNone(b: seq<bool>, s: nat, e: nat)
    requires e <= |b| && forall i :: s <= i < e ==> !b[i]
    ensures Ones(b, s, e) == 0
    decreases e
  {
    if s < e {
      OnesNone(b, s, e - 1);
    }
  }

  lemma {:induction false} OnesAll(b: seq<bool>, s: nat, e: nat)
    requires s <= e <= |b| && forall i :: s <= i < e ==> b[i]
    ensures Ones(b, s, e) == e - s
    decreases e
  {
    if s < e {
      OnesAll(b, s, e - 1);
    }
  }

  lemma {:induction false} OnesSplit(b: seq<bool>, s: nat, m: nat, e: nat)
    requires s <= m <= e <= |b|
    ensures Ones(b, s, e) == Ones(b, s, m) + Ones(b, m, e)
    decreases e
  {
    if m < e {
      OnesSplit(b, s, m, e - 1);
    }
  }

  lemma OnesShr(w: Word, k: nat)
    requires k < WORD_BITS
    ensures PopCount(Shr(w, k)) == Ones(w, k, WORD_BITS)
  {
    hide Ones;
    var n := WORD_BITS - k;
    OnesSplit(Shr(w, k), 0, n, WORD_BITS);
    OnesSame(Shr(w, k), 0, w, k, n);
    OnesNone(Shr(w, k), n, WORD_BITS);
  }

  lemma OnesShl(w: Word, n: nat)
    requires 0 < n <= WORD_BITS
    ensures PopCount(Shl(w, WORD_BITS - n)) == Ones(w, 0, n)
  {
    hide Ones;
    var k := WORD_BITS - n;
    OnesSplit(Shl(w, k), 0, k, WORD_BITS);
    OnesNone(Shl(w, k), 0, k);
    OnesSame(Shl(w, k), k, w, 0, n);
  }

  lemma OnesInWord(words: seq<Word>, k: nat, a: nat, b: nat)
    requires IsBitSet(words) && k < WORDS && a <= b <= WORD_BITS
    ensures k * WORD_BITS + b <= VALID_BITS
    ensures Ones(Bits(words), k * WORD_BITS + a, k * WORD_BITS + b) == Ones(words[k], a, b)
  {
    hide Bits, Ones;
    var start := k * WORD_BITS;
    forall i | start + a <= i < start + b ensures Bits(words)[i] == words[k][i - (start + a) + a] {
      BitAt(words, k, i - start);
    }
    OnesSame(Bits(words), start + a, words[k], a, b - a);
  }

  // How many bits are set in the range.
  method RangePopcount(words: seq<Word>, bitStart: nat, bitEnd: nat) returns (count: nat)
    requires IsBitSet(words) && bitStart < VALID_BITS && bitEnd <= VALID_BITS
    ensures count == Ones(Bits(words), bitStart, bitEnd)
  {
    hide Bits, Ones, PopCount;
    if bitStart >= bitEnd {
      NothingToCount(Bits(words), bitStart, bitEnd);
      return 0;
    }
    Split(bitStart);
    var wordIndex, wordEnd, first := bitStart / WORD_BITS, bitEnd / WORD_BITS, bitStart % WORD_BITS;
    var word := Shr(words[wordIndex], first);
    if wordEnd == wordIndex {
      ShiftedTwice(words[wordIndex], first, bitEnd - bitStart);
      OnesInWord(words, wordIndex, first, first + (bitEnd - bitStart));
      return PopCount(Shl(word, WORD_BITS - (bitEnd - bitStart)));
    }
    OnesShr(words[wordIndex], first);
    OnesInWord(words, wordIndex, first, WORD_BITS);
    count := PopCount(word);
    wordIndex := wordIndex + 1;
    while wordIndex < wordEnd
      invariant wordIndex <= wordEnd && bitStart <= wordIndex * WORD_BITS && count == Ones(Bits(words), bitStart, wordIndex * WORD_BITS)
    {
      WholeWord(words, bitStart, wordIndex);
      count := count + PopCount(words[wordIndex]);
      wordIndex := wordIndex + 1;
    }
    var lastWordBits := bitEnd - wordIndex * WORD_BITS;
    if lastWordBits > 0 {
      OnesShl(words[wordIndex], lastWordBits);
      OnesInWord(words, wordIndex, 0, lastWordBits);
      OnesSplit(Bits(words), bitStart, wordIndex * WORD_BITS, bitEnd);
      count := count + PopCount(Shl(words[wordIndex], WORD_BITS - lastWordBits));
    }
  }

  lemma NothingToCount(b: seq<bool>, s: nat, e: nat)
    requires s >= e && e <= |b|
    ensures Ones(b, s, e) == 0
  {}

  lemma WholeWord(words: seq<Word>, s: nat, k: nat)
    requires IsBitSet(words) && k < WORDS && s <= k * WORD_BITS
    ensures (k + 1) * WORD_BITS <= VALID_BITS
    ensures Ones(Bits(words), s, (k + 1) * WORD_BITS) == Ones(Bits(words), s, k * WORD_BITS) + PopCount(words[k])
  {
    hide Bits, Ones;
    OnesInWord(words, k, 0, WORD_BITS);
    OnesSplit(Bits(words), s, k * WORD_BITS, (k + 1) * WORD_BITS);
  }

  lemma ShiftedTwice(w: Word, k: nat, n: nat)
    requires 0 < n && k + n <= WORD_BITS
    ensures PopCount(Shl(Shr(w, k), WORD_BITS - n)) == Ones(w, k, k + n)
  {
    hide Ones, PopCount;
    OnesShl(Shr(w, k), n);
    OnesSame(Shr(w, k), 0, w, k, n);
  }
}
