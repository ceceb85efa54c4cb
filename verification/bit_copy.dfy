/** copy_bits: moving a run of bits between bit strings that are aligned differently. */
module BitCopy {
  import opened Bits
  import opened BitWords

  /** The data of a bit string start behind its header and its length. */
  const BIT_STRING_FIRST_WORD: nat := 2

  /** Bit p of a sequence of words, the least significant bit of the first word being bit 0. */
  predicate BitAt(m: seq<ULong>, p: int) {
    0 <= p / 64 < |m| && Bit(m[p / 64], p % 64)
  }

  /** Whether the bit that is copied to p has been overwritten before it is read.  Within one bit string
      the words are written from the top down, and a word is written when all its bits have been read. */
  predicate Overwritten(p: int, shift: int, top: int, same: bool) {
    same && p + shift < top && (p + shift) / 64 > p / 64
  }

  /** Bit i of word k: from c up to top it is the bit of the source `shift` bits further up, in the state
      in which that is read; otherwise it is as it was. */
  ghost predicate CopiedBit(src: seq<ULong>, was: seq<ULong>, now: seq<ULong>, shift: int, c: int, top: int,
                            same: bool, k: nat, i: nat) {
    k < |now| == |was| && (same ==> src == was) &&
    var p := 64 * k + i;
    Bit(now[k], i) == if c <= p < top then BitAt(if Overwritten(p, shift, top, same) then now else src, p + shift)
      else Bit(was[k], i)
  }

  ghost predicate Copied(src: seq<ULong>, was: seq<ULong>, now: seq<ULong>, shift: int, c: int, top: int, same: bool) {
    && |now| == |was|
    && forall k: nat, i: nat {:trigger CopiedBit(src, was, now, shift, c, top, same, k, i)} ::
         k < |now| && i < 64 ==> CopiedBit(src, was, now, shift, c, top, same, k, i)
  }

  /** Besides, the words below d are untouched. */
  ghost predicate Down(src: seq<ULong>, was: seq<ULong>, now: seq<ULong>, shift: int, c: int, top: int, same: bool,
                       d: nat) {
    d <= |now| && Copied(src, was, now, shift, c, top, same) && forall k {:trigger now[k]} :: 0 <= k < d ==>
      now[k] == was[k]
  }

  /** The word w belongs at k once the bits from c on are copied. */
  ghost predicate Fits(src: seq<ULong>, before: ULong, w: ULong, k: nat, shift: int, c: int, top: int) {
    forall i: nat {:trigger Bit(w, i)} :: i < 64 ==>
      Bit(w, i) == if c <= 64 * k + i < top then BitAt(src, 64 * k + i + shift) else Bit(before, i)
  }

  /** One more word is in place: the bits from c' on are copied.  The source is now cur. */
  lemma WordCopied(src: seq<ULong>, was: seq<ULong>, now: seq<ULong>, cur: seq<ULong>, d: nat, w: ULong, shift: int,
                   c: int, c': int, top: int, same: bool)
    requires Down(src, was, now, shift, c, top, same, d) && d > 0 && 64 * d - 64 <= c' <= c <= 64 * d &&
      (c < 64 * d ==> c == top) && c <= top
    requires Fits(cur, was[d - 1], w, d - 1, shift, c', top) && cur == (if same then now else src) &&
      (same ==> src == was)
    ensures Down(src, was, now[d - 1 := w], shift, c', top, same, d - 1)
  {
    hide Bit;
    var later := now[d - 1 := w];
    forall k: nat, i: nat | k < |later| && i < 64
      ensures CopiedBit(src, was, later, shift, c', top, same, k, i)
    {
      assert CopiedBit(src, was, now, shift, c, top, same, k, i);
      var p := 64 * k + i;
      assert p / 64 == k && p % 64 == i;
      if k == d - 1 {
        assert Bit(w, i) == Bit(later[k], i);
        if c' <= p < top { SameRead(src, was, now, w, shift, c, top, same, d, p); }
      }
    }
  }

  /** What is read for bit p of word d - 1 is the original bit, or one that stays. */
  lemma SameRead(src: seq<ULong>, was: seq<ULong>, now: seq<ULong>, w: ULong, shift: int, c: int, top: int, same: bool,
                 d: nat, p: int)
    requires Down(src, was, now, shift, c, top, same, d) && d > 0 && p / 64 == d - 1 && (same ==> src == was)
    ensures BitAt(if same then now else src, p + shift) ==
      BitAt(if Overwritten(p, shift, top, same) then now[d - 1 := w] else src, p + shift)
  {
    hide Bit;
    var q := p + shift;
    if same && 0 <= q / 64 < |now| && q >= top { assert CopiedBit(src, was, now, shift, c, top, same, q / 64, q % 64); }
  }

  /** Bits i on of word j of the source. */
  lemma SourceBit(src: seq<ULong>, j: nat, i: int, p: int)
    requires j < |src| && 0 <= i < 64 && p == 64 * j + i
    ensures BitAt(src, p) == Bit(src[j], i)
  {
    assert p / 64 == j && p % 64 == i;
  }

  // ---------------------------------------------------------------- the words that are written

  /** MASKED_TRANSFER. */
  function Masked(x: ULong, before: ULong, mask: ULong): ULong {
    Or64(And64(x, mask), AndNot64(before, mask))
  }

  /** n bits from k0 on are taken from x, which holds word j of the source shifted right by s. */
  lemma MaskedRight(src: seq<ULong>, before: ULong, x: ULong, j: nat, s: nat, n: nat, k0: nat, k: nat, shift: int,
                    c: int, top: int)
    requires j < |src| && x == ShiftR64(src[j], s) && k0 + n + s <= 64 && k0 < 64 && shift == 64 * j - 64 * k + s
    requires c == 64 * k + k0 && (top == c + n || (k0 + n == 64 && top >= c + n))
    ensures Fits(src, before, Masked(x, before, AnyMask(n, k0)), k, shift, c, top)
  {
    var w := Masked(x, before, AnyMask(n, k0));
    forall i: nat | i < 64
      ensures Bit(w, i) == if c <= 64 * k + i < top then BitAt(src, 64 * k + i + shift) else Bit(before, i)
    {
      if k0 <= i < k0 + n { SourceBit(src, j, i + s, 64 * k + i + shift); }
    }
  }

  /** The same with the word shifted left. */
  lemma MaskedLeft(src: seq<ULong>, before: ULong, x: ULong, j: nat, s: nat, n: nat, k0: nat, k: nat, shift: int,
                   c: int, top: int)
    requires j < |src| && s < 64 && x == ShiftL64(src[j], s) && s <= k0 < 64 && k0 + n <= 64 &&
      shift == 64 * j - 64 * k - s
    requires c == 64 * k + k0 && (top == c + n || (k0 + n == 64 && top >= c + n))
    ensures Fits(src, before, Masked(x, before, AnyMask(n, k0)), k, shift, c, top)
  {
    var w := Masked(x, before, AnyMask(n, k0));
    forall i: nat | i < 64
      ensures Bit(w, i) == if c <= 64 * k + i < top then BitAt(src, 64 * k + i + shift) else Bit(before, i)
    {
      if k0 <= i < k0 + n { SourceBit(src, j, i - s, 64 * k + i + shift); }
    }
  }

  lemma NoShift(x: ULong)
    ensures ShiftR64(x, 0) == x
  {
    assert x / 1 == x;
  }

  /** A whole word. */
  lemma WholeWord(src: seq<ULong>, before: ULong, j: nat, k: nat, shift: int, top: int)
    requires j < |src| && shift == 64 * j - 64 * k && top >= 64 * k + 64
    ensures Fits(src, before, src[j], k, shift, 64 * k, top)
  {
    forall i: nat | i < 64 ensures Bit(src[j], i) == BitAt(src, 64 * k + i + shift) {
      SourceBit(src, j, i, 64 * k + i + shift);
    }
  }

  /** The low bits of word j + 1 above the high bits of word j. */
  function Joined(low: ULong, high: ULong, offset1: nat): ULong
    requires 0 < offset1 < 64
  {
    Or64(And64(ShiftR64(low, offset1), LowMask(64 - offset1)), ShiftL64(And64(high, LowMask(offset1)), 64 - offset1))
  }

  lemma JoinedFits(src: seq<ULong>, before: ULong, j: nat, offset1: nat, k: nat, shift: int, top: int)
    requires 0 < offset1 < 64 && j + 1 < |src| && shift == 64 * j - 64 * k + offset1 && top >= 64 * k + 64
    ensures Fits(src, before, Joined(src[j], src[j + 1], offset1), k, shift, 64 * k, top)
  {
    var w := Joined(src[j], src[j + 1], offset1);
    forall i: nat | i < 64 ensures Bit(w, i) == BitAt(src, 64 * k + i + shift) {
      if i < 64 - offset1 {
        SourceBit(src, j, i + offset1, 64 * k + i + shift);
      } else {
        SourceBit(src, j + 1, i + offset1 - 64, 64 * k + i + shift);
      }
    }
  }

  /** The last n bits when they are all in word j + 1. */
  lemma TailInOne(src: seq<ULong>, before: ULong, j: int, offset1: nat, n: nat, k: nat, shift: int, top: int)
    requires 0 < n <= offset1 < 64 && 0 <= j + 1 < |src| && shift == 64 * j - 64 * k + offset1 && top >= 64 * k + 64
    ensures var tail := And64(before, LowMask(64 - n));
      Fits(src, before, Or64(ShiftL64(And64(src[j + 1], AnyMask(n, offset1 - n)), 64 - offset1), tail), k, shift,
           64 * k + 64 - n, top)
  {
    var w := Or64(ShiftL64(And64(src[j + 1], AnyMask(n, offset1 - n)), 64 - offset1), And64(before, LowMask(64 - n)));
    forall i: nat | i < 64
      ensures Bit(w, i) == if 64 * k + 64 - n <= 64 * k + i < top then BitAt(src, 64 * k + i + shift)
        else Bit(before, i)
    {
      if i >= 64 - n { SourceBit(src, j + 1, i + offset1 - 64, 64 * k + i + shift); }
    }
  }

  /** The last n bits when they are in words j + 1 and j. */
  lemma TailInTwo(src: seq<ULong>, before: ULong, j: nat, offset1: nat, n: nat, k: nat, shift: int, top: int)
    requires 0 < offset1 < n < 64 && j + 1 < |src| && shift == 64 * j - 64 * k + offset1 && top >= 64 * k + 64
    ensures var tail := And64(before, LowMask(64 - n));
      var high := ShiftL64(And64(src[j + 1], LowMask(offset1)), 64 - offset1); var m := n - offset1;
      Fits(src, before, Or64(Or64(ShiftR64(And64(src[j], AnyMask(m, 64 - m)), offset1), high), tail), k, shift,
           64 * k + 64 - n, top)
  {
    var tail := And64(before, LowMask(64 - n));
    var high := ShiftL64(And64(src[j + 1], LowMask(offset1)), 64 - offset1);
    var m := n - offset1;
    var low := ShiftR64(And64(src[j], AnyMask(m, 64 - m)), offset1);
    var w := Or64(Or64(low, high), tail);
    forall i: nat | i < 64
      ensures Bit(w, i) == if 64 * k + 64 - n <= 64 * k + i < top then BitAt(src, 64 * k + i + shift)
        else Bit(before, i)
    {
      NoHighBits(And64(src[j], AnyMask(m, 64 - m)), i + offset1);
      if i >= 64 - offset1 {
        SourceBit(src, j + 1, i + offset1 - 64, 64 * k + i + shift);
      } else if i >= 64 - n {
        SourceBit(src, j, i + offset1, 64 * k + i + shift);
      }
    }
  }

  /** A word has 64 bits. */
  lemma NoHighBits(x: ULong, i: nat)
    ensures i >= 64 ==> !Bit(x, i)
  {
    if i >= 64 {
      Pow2Long();
      Pow2Monotone(64, i);
      assert x / Pow2(i) == 0;
    }
  }

  // ---------------------------------------------------------------- the buffer

  /** The buffer holds the upper part of word k of the destination, from bit offset1 on. */
  ghost predicate Buffered(src: seq<ULong>, before: ULong, buffer: ULong, offset1: nat, k: nat, shift: int, top: int) {
    forall i: nat {:trigger Bit(buffer, i)} :: i < 64 ==>
      Bit(buffer, i) == (i >= offset1 && if 64 * k + i < top then BitAt(src, 64 * k + i + shift) else Bit(before, i))
  }

  /** The head: what is above top stays, and the low bits of word j come below. */
  lemma HeadBuffered(src: seq<ULong>, before: ULong, j: nat, offset1: nat, head: nat, k: nat, shift: int, top: int)
    requires j < |src| && 0 < offset1 && 0 < head && offset1 + head <= 64 && shift == 64 * j - 64 * k - offset1 &&
      top == 64 * k + offset1 + head
    ensures var kept := if head + offset1 < 64 then AndNot64(before, LowMask(head + offset1)) else 0;
      Buffered(src, before, Or64(kept, ShiftL64(And64(src[j], LowMask(head)), offset1)), offset1, k, shift, top)
  {
    var kept: ULong := if head + offset1 < 64 then AndNot64(before, LowMask(head + offset1)) else 0;
    var buffer := Or64(kept, ShiftL64(And64(src[j], LowMask(head)), offset1));
    forall i: nat | i < 64
      ensures Bit(buffer, i) ==
        (i >= offset1 && if 64 * k + i < top then BitAt(src, 64 * k + i + shift) else Bit(before, i))
    {
      ZeroBit(i);
      if offset1 <= i < offset1 + head { SourceBit(src, j, i - offset1, 64 * k + i + shift); }
    }
  }

  lemma ZeroBit(i: nat)
    ensures !Bit(0, i)
  {
    assert 0 / Pow2(i) == 0;
  }

  /** A whole word of the source in the buffer. */
  lemma WordBuffered(src: seq<ULong>, before: ULong, j: nat, offset1: nat, k: nat, shift: int, top: int)
    requires j < |src| && 0 < offset1 < 64 && shift == 64 * j - 64 * k - offset1 && top >= 64 * k + 64
    ensures Buffered(src, before, ShiftL64(src[j], offset1), offset1, k, shift, top)
  {
    var buffer := ShiftL64(src[j], offset1);
    forall i: nat | i < 64
      ensures Bit(buffer, i) ==
        (i >= offset1 && if 64 * k + i < top then BitAt(src, 64 * k + i + shift) else Bit(before, i))
    {
      if i >= offset1 { SourceBit(src, j, i - offset1, 64 * k + i + shift); }
    }
  }

  /** The buffer is filled up with the high bits of word j. */
  lemma FlushedFits(src: seq<ULong>, before: ULong, buffer: ULong, j: nat, offset1: nat, k: nat, shift: int, top: int)
    requires Buffered(src, before, buffer, offset1, k, shift, top) && j < |src| && 0 < offset1 < 64
    requires shift == 64 * j - 64 * k + 64 - offset1 && top >= 64 * k + offset1
    ensures Fits(src, before, Or64(buffer, And64(ShiftR64(src[j], 64 - offset1), LowMask(offset1))), k, shift, 64 * k,
                 top)
  {
    var w := Or64(buffer, And64(ShiftR64(src[j], 64 - offset1), LowMask(offset1)));
    forall i: nat | i < 64
      ensures Bit(w, i) == if 64 * k <= 64 * k + i < top then BitAt(src, 64 * k + i + shift) else Bit(before, i)
    {
      assert Bit(buffer, i) == Bit(buffer, i);
      if i < offset1 { SourceBit(src, j, i + 64 - offset1, 64 * k + i + shift); }
    }
  }

  /** The last n bits, which end in the word of the buffer. */
  lemma LastFits(src: seq<ULong>, before: ULong, buffer: ULong, j: nat, offset1: nat, n: nat, k: nat, shift: int,
                 top: int)
    requires Buffered(src, before, buffer, offset1, k, shift, top) && j < |src| && 0 < offset1 < 64 && n <= offset1
    requires shift == 64 * j - 64 * k + 64 - offset1 && top >= 64 * k + offset1
    ensures var w := Or64(Or64(buffer, And64(before, LowMask(offset1 - n))),
                          And64(ShiftR64(src[j], 64 - offset1), AnyMask(n, offset1 - n)));
      Fits(src, before, w, k, shift, 64 * k + offset1 - n, top)
  {
    var w := Or64(Or64(buffer, And64(before, LowMask(offset1 - n))),
                  And64(ShiftR64(src[j], 64 - offset1), AnyMask(n, offset1 - n)));
    forall i: nat | i < 64
      ensures Bit(w, i) == if 64 * k + offset1 - n <= 64 * k + i < top then BitAt(src, 64 * k + i + shift)
        else Bit(before, i)
    {
      assert Bit(buffer, i) == Bit(buffer, i);
      if i < offset1 { SourceBit(src, j, i + 64 - offset1, 64 * k + i + shift); }
    }
  }

  /** The last n bits, at the top of a word. */
  lemma TopFits(src: seq<ULong>, before: ULong, j: nat, offset1: nat, n: nat, k: nat, shift: int, top: int)
    requires j < |src| && 0 < offset1 && 0 < n && n + offset1 < 64 && shift == 64 * j - 64 * k - offset1 &&
      top >= 64 * k + 64
    ensures var mask := LowMask(64 - n);
      Fits(src, before, Or64(And64(before, mask), AndNot64(ShiftL64(src[j], offset1), mask)), k, shift, 64 * k + 64 - n,
           top)
  {
    var mask := LowMask(64 - n);
    var w := Or64(And64(before, mask), AndNot64(ShiftL64(src[j], offset1), mask));
    forall i: nat | i < 64
      ensures Bit(w, i) == if 64 * k + 64 - n <= 64 * k + i < top then BitAt(src, 64 * k + i + shift)
        else Bit(before, i)
    {
      if i >= 64 - n { SourceBit(src, j, i - offset1, 64 * k + i + shift); }
    }
  }

  // ---------------------------------------------------------------- copying within one bit string

  /** Every bit of the run is the original bit of the source. */
  ghost predicate Transferred(src: seq<ULong>, now: seq<ULong>, shift: int, c: int, top: int) {
    forall p {:trigger BitAt(now, p)} :: c <= p < top ==> BitAt(now, p) == BitAt(src, p + shift)
  }

  lemma CopiedAt(src: seq<ULong>, was: seq<ULong>, now: seq<ULong>, shift: int, c: int, top: int, same: bool, p: int)
    requires Copied(src, was, now, shift, c, top, same) && 0 <= p < 64 * |was| && (same ==> src == was)
    ensures BitAt(now, p) == if c <= p < top
      then BitAt(if Overwritten(p, shift, top, same) then now else src, p + shift) else BitAt(was, p)
  {
    hide Bit;
    assert CopiedBit(src, was, now, shift, c, top, same, p / 64, p % 64);
  }

  /** The bits of the source that are overwritten before they are read are like the bits that replace them. */
  ghost predicate Repeats(src: seq<ULong>, shift: int, c: int, top: int, same: bool) {
    forall p {:trigger Overwritten(p, shift, top, same)} :: c <= p < top && Overwritten(p, shift, top, same) ==>
      BitAt(src, p + shift) == BitAt(src, p + 2 * shift)
  }

  /** The original bits arrive exactly when the source repeats itself where it is overwritten.  Nothing is
      overwritten early if the run moves up, or down by its length at least. */
  lemma TransferredIff(src: seq<ULong>, was: seq<ULong>, now: seq<ULong>, shift: int, c: int, top: int, same: bool)
    requires Copied(src, was, now, shift, c, top, same) && 0 <= c <= top <= 64 * |was| && (same ==> src == was)
    ensures Transferred(src, now, shift, c, top) <==> Repeats(src, shift, c, top, same)
    ensures !same || shift <= 0 || shift >= top - c ==> Transferred(src, now, shift, c, top)
  {
    hide BitAt, Copied;
    if Transferred(src, now, shift, c, top) {
      forall p | c <= p < top && Overwritten(p, shift, top, same)
        ensures BitAt(src, p + shift) == BitAt(src, p + 2 * shift)
      {
        CopiedAt(src, was, now, shift, c, top, same, p);
        assert BitAt(now, p) == BitAt(src, p + shift) && BitAt(now, p + shift) == BitAt(src, p + shift + shift);
      }
    }
    if Repeats(src, shift, c, top, same) {
      forall p | c <= p < top ensures BitAt(now, p) == BitAt(src, p + shift) {
        TransferredAt(src, was, now, shift, c, top, same, p);
      }
    }
  }

  lemma {:induction false} TransferredAt(src: seq<ULong>, was: seq<ULong>, now: seq<ULong>, shift: int, c: int,
                                         top: int,
                                         same: bool, p: int)
    requires Copied(src, was, now, shift, c, top, same) && 0 <= c <= p < top <= 64 * |was| && (same ==> src == was)
    requires Repeats(src, shift, c, top, same)
    ensures BitAt(now, p) == BitAt(src, p + shift)
    decreases top - p
  {
    hide BitAt, Copied;
    CopiedAt(src, was, now, shift, c, top, same, p);
    if Overwritten(p, shift, top, same) {
      TransferredAt(src, was, now, shift, c, top, same, p + shift);
      assert p + shift + shift == p + 2 * shift;
    }
  }

  /** The bits after the bits from the top of the run down to c have been moved one by one. */
  function OneByOne(bits: int -> bool, shift: int, c: int, top: int): int -> bool
    decreases top - c
  {
    if c >= top then bits
    else
      var above := OneByOne(bits, shift, c + 1, top);
      q => if q == c then above(c + shift) else above(q)
  }

  /** A bit that is read from the part of the run already written is the bit written there. */
  lemma {:induction false} OneByOneAt(bits: int -> bool, shift: int, c: int, top: int, q: int)
    ensures var moved := OneByOne(bits, shift, c, top);
      moved(q) == if c <= q < top then (if shift > 0 && q + shift < top then moved(q + shift) else bits(q + shift))
        else bits(q)
    decreases top - c
  {
    if c < top {
      OneByOneAt(bits, shift, c + 1, top, q);
      if q == c { OneByOneAt(bits, shift, c + 1, top, c + shift); }
    }
  }

  ghost predicate InOrder(was: seq<ULong>, now: seq<ULong>, shift: int, c: int, top: int) {
    forall p {:trigger BitAt(now, p)} :: c <= p < top ==>
      BitAt(now, p) == OneByOne(q => BitAt(was, q), shift, c, top)(p)
  }

  /** The bits of the run that are read although a bit by bit copy would have written them before. */
  predicate ReadEarly(p: int, shift: int, c: int, top: int) {
    c <= p && shift > 0 && p + shift < top && (p + shift) / 64 == p / 64
  }

  /** The bits that are read early are those that a bit by bit copy would put in their place. */
  ghost predicate EarlyAgree(was: seq<ULong>, shift: int, c: int, top: int) {
    forall p {:trigger ReadEarly(p, shift, c, top)} :: ReadEarly(p, shift, c, top) ==>
      BitAt(was, p + shift) == OneByOne(q => BitAt(was, q), shift, c, top)(p + shift)
  }

  /** The result is that of copying bit by bit from the most significant bit down exactly when the source
      agrees where it is read early.  Nothing is read early if the run moves up, or down by a word or more. */
  lemma InOrderIff(was: seq<ULong>, now: seq<ULong>, shift: int, c: int, top: int)
    requires Copied(was, was, now, shift, c, top, true) && 0 <= c <= top <= 64 * |was|
    ensures InOrder(was, now, shift, c, top) <==> EarlyAgree(was, shift, c, top)
    ensures shift <= 0 || shift >= 64 ==> InOrder(was, now, shift, c, top)
  {
    hide BitAt, Copied, OneByOne;
    if InOrder(was, now, shift, c, top) {
      forall p | ReadEarly(p, shift, c, top)
        ensures BitAt(was, p + shift) == OneByOne(q => BitAt(was, q), shift, c, top)(p + shift)
      {
        CopiedAt(was, was, now, shift, c, top, true, p);
        OneByOneAt(q => BitAt(was, q), shift, c, top, p);
      }
    }
    if EarlyAgree(was, shift, c, top) {
      forall p | c <= p < top ensures BitAt(now, p) == OneByOne(q => BitAt(was, q), shift, c, top)(p) {
        InOrderAt(was, now, shift, c, top, p);
      }
    }
  }

  lemma {:induction false} InOrderAt(was: seq<ULong>, now: seq<ULong>, shift: int, c: int, top: int, p: int)
    requires Copied(was, was, now, shift, c, top, true) && 0 <= c <= p < top <= 64 * |was| &&
      EarlyAgree(was, shift, c, top)
    ensures BitAt(now, p) == OneByOne(q => BitAt(was, q), shift, c, top)(p)
    decreases top - p
  {
    hide BitAt, Copied, OneByOne;
    CopiedAt(was, was, now, shift, c, top, true, p);
    OneByOneAt(q => BitAt(was, q), shift, c, top, p);
    if shift > 0 && p + shift < top {
      InOrderAt(was, now, shift, c, top, p + shift);
      assert ReadEarly(p, shift, c, top) || Overwritten(p, shift, top, true);
    }
  }

  /** Two bits moved down by one within a word: bit by bit both would become the bit above them. */
  lemma OrderLost(was: seq<ULong>, now: seq<ULong>)
    requires Copied(was, was, now, 1, 128, 130, true) && |was| == 3 && !BitAt(was, 129) && BitAt(was, 130)
    ensures BitAt(now, 128) == false && OneByOne(q => BitAt(was, q), 1, 128, 130)(128) == true
  {
    hide BitAt, Copied, OneByOne;
    CopiedAt(was, was, now, 1, 128, 130, true, 128);
    OneByOneAt(q => BitAt(was, q), 1, 128, 130, 128);
    OneByOneAt(q => BitAt(was, q), 1, 128, 130, 129);
  }

  // ---------------------------------------------------------------- the procedure

  lemma Start(src: seq<ULong>, m: seq<ULong>, shift: int, top: int, same: bool, d: nat)
    requires d <= |m| && (same ==> src == m)
    ensures Down(src, m, m, shift, top, top, same, d)
  {}

  /** Write one word of the destination. */
  method Store(source: array<ULong>, destination: array<ULong>, d: nat, w: ULong, ghost src: seq<ULong>,
               ghost was: seq<ULong>, ghost shift: int,
               ghost c: int, ghost c': int, ghost top: int)
    requires Down(src, was, destination[..], shift, c, top, source == destination, d) && d > 0 && d <= |was| &&
      d <= destination.Length
    requires src == (if source == destination then was else source[..]) &&
      Fits(source[..], was[d - 1], w, d - 1, shift, c', top)
    requires 64 * d - 64 <= c' <= c <= 64 * d && (c < 64 * d ==> c == top) && c <= top
    modifies destination
    ensures Down(src, was, destination[..], shift, c', top, source == destination, d - 1)
    ensures source != destination ==> source[..] == old(source[..])
  {
    hide Down, Fits;
    WordCopied(src, was, destination[..], source[..], d, w, shift, c, c', top, source == destination);
    ghost var now := destination[..];
    destination[d - 1] := w;
    assert destination[..] == now[d - 1 := w];
  }

  /** The word below d is as it was. */
  lemma Untouched(src: seq<ULong>, was: seq<ULong>, now: seq<ULong>, shift: int, c: int, top: int, same: bool, d: nat)
    requires Down(src, was, now, shift, c, top, same, d)
    ensures |now| == |was| && d <= |now| && (d > 0 ==> now[d - 1] == was[d - 1])
  {}

  lemma Finish(src: seq<ULong>, was: seq<ULong>, now: seq<ULong>, shift: int, c: int, top: int, same: bool, d: nat)
    requires Down(src, was, now, shift, c, top, same, d)
    ensures Copied(src, was, now, shift, c, top, same)
  {}

  /** The bits to copy lie in the strings, above their first two words. */
  predicate InString(a: array<ULong>, ptr: nat, offset: nat, count: nat) {
    offset < 64 && ptr <= a.Length && 64 * BIT_STRING_FIRST_WORD + offset + count <= 64 * ptr
  }

  /** The source and the destination are aligned alike. */
  method CopyAligned(source: array<ULong>, sourcePtr: nat, destination: array<ULong>, destinationPtr: nat, offset: nat,
                     count: nat)
    requires 0 < count && InString(source, sourcePtr, offset, count) &&
      InString(destination, destinationPtr, offset, count)
    modifies destination
    ensures var top := 64 * destinationPtr - offset;
      Copied(old(source[..]), old(destination[..]), destination[..], 64 * sourcePtr - 64 * destinationPtr, top - count,
             top, source == destination)
  {
    hide Copied, Down, Fits, Masked;
    ghost var src, was, same := source[..], destination[..], source == destination;
    ghost var top, shift := 64 * destinationPtr - offset, 64 * sourcePtr - 64 * destinationPtr;
    var s, d, nbits := sourcePtr, destinationPtr, count;
    Start(src, was, shift, top, same, d);
    ghost var c := top;
    if offset != 0 {
      var head := 64 - offset;
      var n := if nbits <= head then nbits else head;
      NoShift(source[s - 1]);
      MaskedRight(source[..], was[d - 1], source[s - 1], s - 1, 0, n, head - n, d - 1, shift, top - n, top);
      Store(source, destination, d, Masked(source[s - 1], destination[d - 1], AnyMask(n, head - n)), src, was, shift, c,
            top - n, top);
      s, d, nbits, c := s - 1, d - 1, nbits - n, top - n;
    }
    while nbits >= 64
      invariant 0 <= nbits && c == top - count + nbits && 0 <= d <= |was| &&
        Down(src, was, destination[..], shift, c, top, same, d)
      invariant s <= source.Length && s - d == sourcePtr - destinationPtr && 0 < s && 0 < d && nbits <= 64 * s - 64 &&
        nbits <= 64 * d - 64
      invariant nbits > 0 ==> c == 64 * d
    {
      WholeWord(source[..], was[d - 1], s - 1, d - 1, shift, top);
      Store(source, destination, d, source[s - 1], src, was, shift, c, c - 64, top);
      s, d, nbits, c := s - 1, d - 1, nbits - 64, c - 64;
    }
    if nbits > 0 {
      NoShift(source[s - 1]);
      MaskedRight(source[..], was[d - 1], source[s - 1], s - 1, 0, nbits, 64 - nbits, d - 1, shift, c - nbits, top);
      Untouched(src, was, destination[..], shift, c, top, same, d);
      Store(source, destination, d, Masked(source[s - 1], destination[d - 1], AnyMask(nbits, 64 - nbits)), src, was,
            shift, c, c - nbits, top);
      c, d := c - nbits, d - 1;
    }
    Finish(src, was, destination[..], shift, c, top, same, d);
  }

  /** The source is aligned above the destination: its words are shifted right. */
  method CopyRight(source: array<ULong>, sourcePtr: nat, sourceOffset: nat, destination: array<ULong>,
                   destinationPtr: nat, destinationOffset: nat, count: nat)
    requires 0 < count && sourceOffset < destinationOffset
    requires InString(source, sourcePtr, sourceOffset, count) &&
      InString(destination, destinationPtr, destinationOffset, count)
    modifies destination
    ensures var top := 64 * destinationPtr - destinationOffset;
      Copied(old(source[..]), old(destination[..]), destination[..], 64 * sourcePtr - sourceOffset - top, top - count,
             top, source == destination)
  {
    hide Copied, Down, Fits, Masked, Joined, BitAt, Bit, And64, Or64, AndNot64, ShiftL64, ShiftR64, LowMask, AnyMask;
    ghost var src, was, same := source[..], destination[..], source == destination;
    ghost var top := 64 * destinationPtr - destinationOffset;
    ghost var shift := 64 * sourcePtr - sourceOffset - top;
    var s, d, nbits := sourcePtr, destinationPtr, count;
    var offset1 := destinationOffset - sourceOffset;
    var head := 64 - destinationOffset;
    Start(src, was, shift, top, same, d);
    ghost var c := top;
    var n := if nbits <= head then nbits else head;
    MaskedRight(source[..], was[d - 1], ShiftR64(source[s - 1], offset1), s - 1, offset1, n, head - n, d - 1, shift,
                top - n, top);
    Store(source, destination, d, Masked(ShiftR64(source[s - 1], offset1), destination[d - 1], AnyMask(n, head - n)),
          src, was, shift, c, top - n, top);
    d, nbits, c := d - 1, nbits - n, top - n;
    while nbits >= 64
      invariant 0 <= nbits && c == top - count + nbits && 0 <= d <= |was| &&
        Down(src, was, destination[..], shift, c, top, same, d)
      invariant s <= source.Length && shift == 64 * s - 64 * d - 64 + offset1 && 1 < s && 0 < d &&
        nbits <= 64 * s - 128 && nbits <= 64 * d - 64
      invariant nbits > 0 ==> c == 64 * d
    {
      JoinedFits(source[..], was[d - 1], s - 2, offset1, d - 1, shift, top);
      Store(source, destination, d, Joined(source[s - 2], source[s - 1], offset1), src, was, shift, c, c - 64, top);
      s, d, nbits, c := s - 1, d - 1, nbits - 64, c - 64;
    }
    if nbits > 0 {
      Untouched(src, was, destination[..], shift, c, top, same, d);
      var tail := And64(destination[d - 1], LowMask(64 - nbits));
      if nbits <= offset1 {
        TailInOne(source[..], was[d - 1], s - 2, offset1, nbits, d - 1, shift, top);
        Store(source, destination, d,
              Or64(ShiftL64(And64(source[s - 1], AnyMask(nbits, offset1 - nbits)), 64 - offset1), tail), src, was,
                shift, c, c - nbits, top);
      } else {
        TailInTwo(source[..], was[d - 1], s - 2, offset1, nbits, d - 1, shift, top);
        var high := ShiftL64(And64(source[s - 1], LowMask(offset1)), 64 - offset1);
        var j := nbits - offset1;
        Store(source, destination, d,
              Or64(Or64(ShiftR64(And64(source[s - 2], AnyMask(j, 64 - j)), offset1), high), tail), src, was, shift, c,
                c - nbits, top);
      }
      c, d := c - nbits, d - 1;
    }
    Finish(src, was, destination[..], shift, c, top, same, d);
  }

  /** The end of CopyLeft, when less than a word is left. */
  method CopyLeftEnd(source: array<ULong>, s: nat, destination: array<ULong>, d0: nat, offset1: nat, count: nat,
                     buffer: ULong,
                     ghost src: seq<ULong>, ghost was: seq<ULong>, ghost shift: int, ghost c0: int, ghost top: int)
    requires src == (if source == destination then was else source[..]) && 0 < offset1 < 64 && count < 64
    requires 0 < d0 <= |was| && d0 <= destination.Length &&
      Down(src, was, destination[..], shift, c0, top, source == destination, d0)
    requires s <= source.Length && shift == 64 * s - 64 * d0 + 64 - offset1 && 0 < s && count <= 64 * d0 - 64
    requires 64 * d0 - 64 + offset1 <= c0 <= 64 * d0 && c0 <= top && (c0 < 64 * d0 ==> c0 == top)
    requires Buffered(source[..], was[d0 - 1], buffer, offset1, d0 - 1, shift, top)
    modifies destination
    ensures Copied(src, was, destination[..], shift, 64 * d0 - 64 + offset1 - count, top, source == destination)
  {
    hide Copied, Down, Fits, Buffered;
    var d, nbits, offset2 := d0, count, 64 - offset1;
    ghost var same := source == destination;
    ghost var c := c0;
    ghost var last := 64 * d0 - 64 + offset1 - count;
    Untouched(src, was, destination[..], shift, c, top, same, d);
    if nbits <= offset1 {
      LastFits(source[..], was[d - 1], buffer, s - 1, offset1, nbits, d - 1, shift, top);
      var w := Or64(Or64(buffer, And64(destination[d - 1], LowMask(offset1 - nbits))),
                    And64(ShiftR64(source[s - 1], offset2), AnyMask(nbits, offset1 - nbits)));
      Store(source, destination, d, w, src, was, shift, c, last, top);
      Finish(src, was, destination[..], shift, last, top, same, d - 1);
    } else {
      FlushedFits(source[..], was[d - 1], buffer, s - 1, offset1, d - 1, shift, top);
      Store(source, destination, d, Or64(buffer, And64(ShiftR64(source[s - 1], offset2), LowMask(offset1))), src, was,
            shift, c, 64 * d - 64, top);
      c, d, nbits := 64 * d - 64, d - 1, nbits - offset1;
      Untouched(src, was, destination[..], shift, c, top, same, d);
      TopFits(source[..], was[d - 1], s - 1, offset1, nbits, d - 1, shift, top);
      var mask := LowMask(64 - nbits);
      Store(source, destination, d,
            Or64(And64(destination[d - 1], mask), AndNot64(ShiftL64(source[s - 1], offset1), mask)), src, was, shift, c,
              last, top);
      Finish(src, was, destination[..], shift, last, top, same, d - 1);
    }
  }

  /** The source is aligned below the destination: its words are shifted left through a buffer. */
  method CopyLeft(source: array<ULong>, sourcePtr: nat, sourceOffset: nat, destination: array<ULong>,
                  destinationPtr: nat, destinationOffset: nat, count: nat)
    requires 0 < count && sourceOffset > destinationOffset
    requires InString(source, sourcePtr, sourceOffset, count) &&
      InString(destination, destinationPtr, destinationOffset, count)
    modifies destination
    ensures var top := 64 * destinationPtr - destinationOffset;
      Copied(old(source[..]), old(destination[..]), destination[..], 64 * sourcePtr - sourceOffset - top, top - count,
             top, source == destination)
  {
    hide Copied, Down, Fits, Masked, Buffered, BitAt, Bit, And64, Or64, AndNot64, ShiftL64, ShiftR64, LowMask, AnyMask;
    ghost var src, was, same := source[..], destination[..], source == destination;
    ghost var top := 64 * destinationPtr - destinationOffset;
    ghost var shift := 64 * sourcePtr - sourceOffset - top;
    var s, d, nbits := sourcePtr, destinationPtr, count;
    var offset1 := sourceOffset - destinationOffset;
    var offset2 := 64 - offset1;
    var head := 64 - sourceOffset;
    Start(src, was, shift, top, same, d);
    ghost var c := top;
    if nbits <= head {
      var k0 := offset1 + (head - nbits);
      MaskedLeft(source[..], was[d - 1], ShiftL64(source[s - 1], offset1), s - 1, offset1, nbits, k0, d - 1, shift,
                 top - nbits, top);
      Store(source, destination, d, Masked(ShiftL64(source[s - 1], offset1), destination[d - 1], AnyMask(nbits, k0)),
            src, was, shift, c, top - nbits, top);
      Finish(src, was, destination[..], shift, top - nbits, top, same, d - 1);
      return;
    }
    HeadBuffered(source[..], was[d - 1], s - 1, offset1, head, d - 1, shift, top);
    var kept: ULong := if head + offset1 < 64 then AndNot64(destination[d - 1], LowMask(head + offset1)) else 0;
    var buffer := Or64(kept, ShiftL64(And64(source[s - 1], LowMask(head)), offset1));
    s, nbits := s - 1, nbits - head;
    while nbits >= 64
      invariant 0 <= nbits && 0 < d <= |was| && nbits == 64 * d - 64 + offset1 - (top - count) &&
        Down(src, was, destination[..], shift, c, top, same, d)
      invariant s <= source.Length && shift == 64 * s - 64 * d + 64 - offset1 && 0 < s && nbits <= 64 * s - 64 &&
        nbits <= 64 * d - 64
      invariant 64 * d - 64 + offset1 <= c <= 64 * d && c <= top && (c < 64 * d ==> c == top)
      invariant Buffered(source[..], was[d - 1], buffer, offset1, d - 1, shift, top)
    {
      FlushedFits(source[..], was[d - 1], buffer, s - 1, offset1, d - 1, shift, top);
      Store(source, destination, d, Or64(buffer, And64(ShiftR64(source[s - 1], offset2), LowMask(offset1))), src, was,
            shift, c, 64 * d - 64, top);
      c := 64 * d - 64;
      WordBuffered(source[..], was[d - 2], s - 1, offset1, d - 2, shift, top);
      buffer := ShiftL64(source[s - 1], offset1);
      s, d, nbits := s - 1, d - 1, nbits - 64;
    }
    CopyLeftEnd(source, s, destination, d, offset1, nbits, buffer, src, was, shift, c, top);
  }

  /** copy_bits: exactly nbits bits are copied, and every other bit of the destination stays.  Source
      and destination may be one bit string: the original bits arrive if the run moves up, or down by
      its length at least. */
  method CopyBits(source: array<ULong>, sourcePtr: nat, sourceOffset: nat, destination: array<ULong>,
                  destinationPtr: nat, destinationOffset: nat, nbits: nat)
    requires nbits > 0 ==>
      && InString(source, sourcePtr, sourceOffset, nbits)
      && InString(destination, destinationPtr, destinationOffset, nbits)
    modifies destination
    ensures var top := 64 * destinationPtr - destinationOffset;
      Copied(old(source[..]), old(destination[..]), destination[..], 64 * sourcePtr - sourceOffset - top, top - nbits,
             top, source == destination)
    ensures var top := 64 * destinationPtr - destinationOffset; var shift := 64 * sourcePtr - sourceOffset - top;
      nbits > 0 && (source != destination || shift <= 0 || shift >= nbits) ==>
        Transferred(old(source[..]), destination[..], shift, top - nbits, top)
  {
    hide Copied, Transferred;
    if nbits == 0 {
      Nothing(source[..], destination[..], 64 * sourcePtr - sourceOffset - (64 * destinationPtr - destinationOffset),
              64 * destinationPtr - destinationOffset, source == destination);
      return;
    }
    ghost var src, was := source[..], destination[..];
    if sourceOffset == destinationOffset {
      CopyAligned(source, sourcePtr, destination, destinationPtr, sourceOffset, nbits);
    } else if sourceOffset < destinationOffset {
      CopyRight(source, sourcePtr, sourceOffset, destination, destinationPtr, destinationOffset, nbits);
    } else {
      CopyLeft(source, sourcePtr, sourceOffset, destination, destinationPtr, destinationOffset, nbits);
    }
    ghost var top := 64 * destinationPtr - destinationOffset;
    TransferredIff(src, was, destination[..], 64 * sourcePtr - sourceOffset - top, top - nbits, top, source ==
      destination);
  }

  lemma Nothing(src: seq<ULong>, m: seq<ULong>, shift: int, top: int, same: bool)
    requires same ==> src == m
    ensures Copied(src, m, m, shift, top, top, same)
  {}
}
