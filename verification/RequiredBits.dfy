/** The fields_seen bitset of pb_decode_noinit, as words with explicit bit arithmetic. */
module RequiredBits {
  import opened Words
  import opened Descriptor
  import opened DecodeSpec

  const MAX_REQUIRED := 64
  const ALL_BITS := TWO_32 - 1

  function Pow2(n: nat): (r: nat)
    ensures r >= 1
  {
    if n == 0 then 1 else 2 * Pow2(n - 1)
  }

  /** The word with exactly the bits of s below n set. */
  function Mask(s: set<nat>, n: nat): nat {
    if n == 0 then 0 else Mask(s, n - 1) + (if n - 1 in s then Pow2(n - 1) else 0)
  }

  predicate HasBit(w: nat, i: nat) {
    (w / Pow2(i)) % 2 == 1
  }

  /** w | (1 << i). */
  function SetBit(w: nat, i: nat): nat {
    if HasBit(w, i) then w else w + Pow2(i)
  }

  lemma {:induction false} MaskBound(s: set<nat>, n: nat)
    ensures Mask(s, n) < Pow2(n)
  {
    if n > 0 { MaskBound(s, n - 1); }
  }

  lemma {:induction false} Pow2Split(i: nat, n: nat)
    requires i < n
    ensures Pow2(n) == Pow2(i) * (2 * Pow2(n - i - 1))
    decreases n
  {
    if i < n - 1 {
      Pow2Split(i, n - 1);
      TwiceProduct(Pow2(i), 2 * Pow2(n - i - 2));
    }
  }

  lemma {:induction false} TwiceProduct(a: nat, b: nat)
    ensures 2 * (a * b) == a * (2 * b)
    decreases b
  {
    if b > 0 {
      TwiceProduct(a, b - 1);
      assert a * b == a * (b - 1) + a;
      assert a * (2 * b) == a * (2 * (b - 1)) + a + a;
    }
  }

  lemma Multiple(d: nat, k: nat)
    requires k >= 1
    ensures d * k >= d
  {
    assert d * k == d + d * (k - 1);
  }

  lemma DivUnique(y: nat, d: nat, q: nat, r: nat)
    requires d > 0 && y == d * q + r && r < d
    ensures y / d == q
  {
    var q', r' := y / d, y % d;
    assert d * (q' - q) == r - r' by { assert y == d * q' + r'; assert d * (q' - q) == d * q' - d * q; }
    if q < q' { Multiple(d, q' - q); }
    assert d * (q - q') == r' - r;
    if q' < q { Multiple(d, q - q'); }
  }

  lemma DivShift(a: nat, d: nat, q: nat)
    requires d > 0
    ensures (a + d * q) / d == a / d + q
  {
    var x, r := a / d, a % d;
    assert a + d * q == d * (x + q) + r by { assert d * (x + q) == d * x + d * q; }
    DivUnique(a + d * q, d, x + q, r);
  }

  lemma HigherBit(a: nat, p: nat, q: nat)
    requires p > 0
    ensures ((a + p * (2 * q)) / p) % 2 == (a / p) % 2
  {
    DivShift(a, p, 2 * q);
  }

  /** The mask's bits are the set's elements. */
  lemma {:induction false} MaskHasBit(s: set<nat>, n: nat, i: nat)
    requires i < n
    ensures HasBit(Mask(s, n), i) <==> i in s
    decreases n
  {
    var p := Pow2(i);
    var low := Mask(s, n - 1);
    if i == n - 1 {
      MaskBound(s, i);
      DivUnique(low, p, 0, low);
      DivShift(low, p, 1);
      assert low + p * 1 == low + p;
    } else {
      MaskHasBit(s, n - 1, i);
      if n - 1 in s {
        Pow2Split(i, n - 1);
        HigherBit(low, p, Pow2(n - 1 - i - 1));
      }
    }
  }

  lemma {:induction false} MaskAdd(s: set<nat>, n: nat, i: nat)
    ensures Mask(s + {i}, n) == Mask(s, n) + (if i < n && i !in s then Pow2(i) else 0)
  {
    if n > 0 { MaskAdd(s, n - 1, i); }
  }

  /** Or-ing a bit into a mask adds the element. */
  lemma SetBitMask(s: set<nat>, n: nat, i: nat)
    requires i < n
    ensures SetBit(Mask(s, n), i) == Mask(s + {i}, n)
  {
    MaskHasBit(s, n, i);
    MaskAdd(s, n, i);
  }

  /** A mask is all ones exactly when nothing is missing. */
  lemma {:induction false} MaskFull(s: set<nat>, n: nat)
    ensures Mask(s, n) == Pow2(n) - 1 <==> forall i: nat :: i < n ==> i in s
  {
    if n > 0 {
      MaskFull(s, n - 1);
      MaskBound(s, n - 1);
    }
  }

  lemma {:induction false} MaskNarrow(s: set<nat>, n: nat, m: nat)
    requires m <= n && forall i: nat :: m <= i < n ==> i !in s
    ensures Mask(s, n) == Mask(s, m)
  {
    if m < n { MaskNarrow(s, n - 1, m); }
  }

  lemma Pow2Word()
    ensures Pow2(32) == TWO_32
  {
    assert Pow2(8) == 256;
    Pow2Split(8, 16);
    assert Pow2(7) == 128;
    Pow2Split(16, 32);
    assert Pow2(15) == 0x8000 by { Pow2Split(7, 15); }
  }

  // ----- the two words

  /** Required-field indices below 64 split over two words. */
  function LowWord(s: set<nat>): nat { Mask(s, 32) }

  function HighBits(s: set<nat>): set<nat> { set i | i in s && i >= 32 :: i - 32 }

  function HighWord(s: set<nat>): nat { Mask(HighBits(s), 32) }

  lemma HighBitsAre(s: set<nat>)
    ensures forall i: nat :: i in HighBits(s) <==> i + 32 in s
  {
    forall i: nat ensures i in HighBits(s) <==> i + 32 in s {
      if i + 32 in s { assert i + 32 - 32 in HighBits(s); }
    }
  }

  /** Marking an index sets one bit in one of the two words. */
  lemma MarkSeen(s: set<nat>, i: nat)
    requires i < MAX_REQUIRED
    ensures i < 32 ==> LowWord(s + {i}) == SetBit(LowWord(s), i) && HighWord(s + {i}) == HighWord(s)
    ensures i >= 32 ==> LowWord(s + {i}) == LowWord(s) && HighWord(s + {i}) == SetBit(HighWord(s), i - 32)
  {
    if i < 32 {
      SetBitMask(s, 32, i);
      assert HighBits(s + {i}) == HighBits(s);
    } else {
      MaskAdd(s, 32, i);
      SetBitMask(HighBits(s), 32, i - 32);
      HighBitsAre(s);
      HighBitsAre(s + {i});
      assert HighBits(s + {i}) == HighBits(s) + {i - 32};
    }
  }

  // ----- the final check, with what C leaves undefined

  /** x >> k on a 32-bit word: undefined from 32 on. */
  function ShiftRight(x: nat, k: nat): Option<int> {
    if k < 32 then Some(x / Pow2(k)) else None
  }

  /** fields_seen[i]: undefined outside the array. */
  function WordAt(words: seq<nat>, i: nat): Option<nat> {
    if i < |words| then Some(words[i]) else None
  }

  /** The loop over the whole words, from word i on. */
  function CheckWhole(words: seq<nat>, n: nat, i: nat): Option<bool>
    decreases n / 32 - i
  {
    if i >= n / 32 then Some(true)
    else match WordAt(words, i)
      case None => None
      case Some(w) => if w != ALL_BITS then Some(false) else CheckWhole(words, n, i + 1)
  }

  /** The comparison of the last word with allbits >> (32 - (n & 31)). */
  function CheckLast(words: seq<nat>, n: nat): Option<bool> {
    match WordAt(words, n / 32)
    case None => None
    case Some(w) =>
      match ShiftRight(ALL_BITS, 32 - n % 32)
      case None => None
      case Some(mask) => Some(w == mask)
  }

  /** The check on n required fields; None where its behaviour is undefined. */
  function CheckWords(words: seq<nat>, n: nat): Option<bool> {
    if n == 0 then Some(true)
    else match CheckWhole(words, n, 0)
      case None => None
      case Some(false) => Some(false)
      case Some(true) => CheckLast(words, n)
  }

  /** How many required fields the check can handle. */
  predicate Tracked(n: nat) {
    n == 0 || (n < MAX_REQUIRED && n % 32 != 0)
  }

  /** The shift leaves exactly the low bits of the remaining fields. */
  lemma ShiftedMask(r: nat)
    requires 0 < r < 32
    ensures ShiftRight(ALL_BITS, 32 - r) == Some(Pow2(r) - 1)
  {
    Pow2Word();
    Pow2Product(32 - r, r);
    AllOnes(ALL_BITS, Pow2(32 - r), Pow2(r));
  }

  lemma AllOnes(y: nat, d: nat, q: nat)
    requires d > 0 && q > 0 && y + 1 == d * q
    ensures y / d == q - 1
  {
    assert y == d * (q - 1) + (d - 1) by { assert d * (q - 1) == d * q - d; }
    DivUnique(y, d, q - 1, d - 1);
  }

  lemma {:induction false} Pow2Product(a: nat, b: nat)
    ensures Pow2(a) * Pow2(b) == Pow2(a + b)
    decreases b
  {
    if b > 0 {
      Pow2Product(a, b - 1);
      TwiceProduct(Pow2(a), Pow2(b - 1));
    }
  }

  lemma WholeWords(low: nat, high: nat, n: nat)
    ensures CheckWhole([low, high], n, 0) ==
            if n < 32 then Some(true)
            else if low != ALL_BITS then Some(false)
            else if n < 64 then Some(true)
            else if high != ALL_BITS then Some(false)
            else if n < 96 then Some(true) else None
  {
    var words := [low, high];
    if n >= 32 && low == ALL_BITS {
      assert CheckWhole(words, n, 0) == CheckWhole(words, n, 1);
      if n >= 64 && high == ALL_BITS {
        assert CheckWhole(words, n, 1) == CheckWhole(words, n, 2);
      }
    }
  }

  /** The behaviour is undefined exactly at an untracked count whose whole words, as far as there are any, are full. */
  lemma UndefinedIff(low: nat, high: nat, n: nat)
    ensures CheckWords([low, high], n).None? <==> !Tracked(n) && low == ALL_BITS && (n >= 64 ==> high == ALL_BITS)
  {
    WholeWords(low, high, n);
    if n < 64 && n % 32 != 0 { ShiftedMask(n % 32); }
  }

  /** Where it is defined, the check passes exactly when every required index was met. */
  lemma CheckIsExact(s: set<nat>, n: nat)
    requires forall i :: i in s ==> i < n
    ensures var c := CheckWords([LowWord(s), HighWord(s)], n);
            c.Some? ==> c.value == forall i: nat :: i < n ==> i in s
  {
    WholeWords(LowWord(s), HighWord(s), n);
    UndefinedIff(LowWord(s), HighWord(s), n);
    LowFull(s);
    HighFull(s);
    if Tracked(n) && n > 0 { CheckTracked(s, n); }
  }

  /** The low word is full exactly when the first 32 indices were met. */
  lemma LowFull(s: set<nat>)
    ensures LowWord(s) == ALL_BITS <==> forall i: nat :: i < 32 ==> i in s
  {
    Pow2Word();
    MaskFull(s, 32);
  }

  lemma HighFull(s: set<nat>)
    ensures HighWord(s) == ALL_BITS <==> forall i: nat :: 32 <= i < 64 ==> i in s
  {
    Pow2Word();
    HighBitsAre(s);
    MaskFull(HighBits(s), 32);
    if forall i: nat :: i < 32 ==> i in HighBits(s) {
      forall i: nat | 32 <= i < 64 ensures i in s { assert i - 32 in HighBits(s); }
    }
  }

  lemma CheckTracked(s: set<nat>, n: nat)
    requires 0 < n && Tracked(n) && forall i :: i in s ==> i < n
    ensures CheckWords([LowWord(s), HighWord(s)], n) == Some(forall i: nat :: i < n ==> i in s)
  {
    WholeWords(LowWord(s), HighWord(s), n);
    ShiftedMask(n % 32);
    if n < 32 {
      MaskNarrow(s, 32, n);
      MaskFull(s, n);
    } else {
      var r := n % 32;
      assert n == 32 + r;
      LowFull(s);
      HighBitsAre(s);
      MaskNarrow(HighBits(s), 32, r);
      MaskFull(HighBits(s), r);
      if (forall i: nat :: i < 32 ==> i in s) && (forall i: nat :: i < r ==> i in HighBits(s)) {
        forall i: nat | i < n ensures i in s {
          if i >= 32 { assert i - 32 in HighBits(s); }
        }
      }
    }
  }

  // ----- required fields are numbered in descriptor order

  /** required_field_index when the iterator stands at entry i. */
  function RequiredBefore(fields: seq<Field>, i: nat): (n: nat)
    requires i <= |fields|
    ensures n <= i
  {
    if i == 0 then 0 else RequiredBefore(fields, i - 1) + (if fields[i - 1].htype.Required? then 1 else 0)
  }

  function RequiredCount(fields: seq<Field>): nat {
    RequiredBefore(fields, |fields|)
  }

  lemma {:induction false} RequiredMonotone(fields: seq<Field>, i: nat, j: nat)
    requires i <= j <= |fields|
    ensures RequiredBefore(fields, i) <= RequiredBefore(fields, j)
    ensures i < j && fields[i].htype.Required? ==> RequiredBefore(fields, i) < RequiredBefore(fields, j)
    decreases j
  {
    if i < j { RequiredMonotone(fields, i, j - 1); }
  }

  /** Every number below the count belongs to a required entry. */
  lemma {:induction false} RequiredEntry(fields: seq<Field>, n: nat, m: nat) returns (i: nat)
    requires m <= |fields| && n < RequiredBefore(fields, m)
    ensures i < m && fields[i].htype.Required? && RequiredBefore(fields, i) == n
    decreases m
  {
    if RequiredBefore(fields, m - 1) == n {
      i := m - 1;
    } else {
      i := RequiredEntry(fields, n, m - 1);
    }
  }

  /** The required indices of the entries met. */
  function SeenIndices(fields: seq<Field>, seen: set<nat>): set<nat> {
    set i | i in seen && i < |fields| && fields[i].htype.Required? :: RequiredBefore(fields, i)
  }

  /** fields_seen holds exactly the required indices of the entries met. */
  ghost predicate Marks(fields: seq<Field>, seen: set<nat>, fieldsSeen: seq<nat>) {
    fieldsSeen == [LowWord(SeenIndices(fields, seen)), HighWord(SeenIndices(fields, seen))]
  }

  lemma {:induction false} MaskEmpty(n: nat)
    ensures Mask({}, n) == 0
  {
    if n > 0 { MaskEmpty(n - 1); }
  }

  lemma MarksNothing(fields: seq<Field>)
    ensures Marks(fields, {}, [0, 0])
  {
    MaskEmpty(32);
    assert SeenIndices(fields, {}) == {};
    assert HighBits({}) == {};
  }

  lemma SeenNext(fields: seq<Field>, seen: set<nat>, i: nat)
    requires i < |fields|
    ensures SeenIndices(fields, seen + {i}) ==
            if fields[i].htype.Required? then SeenIndices(fields, seen) + {RequiredBefore(fields, i)}
            else SeenIndices(fields, seen)
  {
  }

  /** fields_seen[n >> 5] |= 1 << (n & 31). */
  function MarkWord(fieldsSeen: seq<nat>, n: nat): seq<nat>
    requires |fieldsSeen| == 2 && n < MAX_REQUIRED
  {
    fieldsSeen[n / 32 := SetBit(fieldsSeen[n / 32], n % 32)]
  }

  lemma MarkWordAdds(idx: set<nat>, n: nat)
    requires n < MAX_REQUIRED
    ensures MarkWord([LowWord(idx), HighWord(idx)], n) == [LowWord(idx + {n}), HighWord(idx + {n})]
  {
    MarkSeen(idx, n);
    if n < 32 {
      assert n / 32 == 0 && n % 32 == n;
    } else {
      assert n / 32 == 1 && n % 32 == n - 32;
    }
  }

  /** Indices from 64 on are not marked. */
  lemma BeyondMarks(idx: set<nat>, n: nat)
    requires n >= MAX_REQUIRED
    ensures LowWord(idx + {n}) == LowWord(idx) && HighWord(idx + {n}) == HighWord(idx)
  {
    MaskAdd(idx, 32, n);
    HighBitsAre(idx);
    HighBitsAre(idx + {n});
    assert HighBits(idx + {n}) == HighBits(idx) + {n - 32};
    MaskAdd(HighBits(idx), 32, n - 32);
  }

  /** Meeting entry i sets its bit if it is required and among the first 64, and changes nothing otherwise. */
  lemma MarksNext(fields: seq<Field>, seen: set<nat>, fieldsSeen: seq<nat>, i: nat)
    requires Marks(fields, seen, fieldsSeen) && i < |fields|
    ensures var marked := fields[i].htype.Required? && RequiredBefore(fields, i) < MAX_REQUIRED;
            Marks(fields, seen + {i}, if marked then MarkWord(fieldsSeen, RequiredBefore(fields, i)) else fieldsSeen)
  {
    var idx, n := SeenIndices(fields, seen), RequiredBefore(fields, i);
    SeenNext(fields, seen, i);
    if fields[i].htype.Required? {
      if n < MAX_REQUIRED { MarkWordAdds(idx, n); } else { BeyondMarks(idx, n); }
    }
  }

  /** The required entries met are all of them exactly when their indices are all indices. */
  lemma SeenAll(fields: seq<Field>, seen: set<nat>)
    ensures forall x :: x in SeenIndices(fields, seen) ==> x < RequiredCount(fields)
    ensures RequiredSeen(fields, seen) <==> forall x: nat :: x < RequiredCount(fields) ==> x in SeenIndices(fields, seen)
  {
    var n, idx := RequiredCount(fields), SeenIndices(fields, seen);
    forall x | x in idx ensures x < n {
      var i :| i in seen && i < |fields| && fields[i].htype.Required? && RequiredBefore(fields, i) == x;
      RequiredMonotone(fields, i, |fields|);
    }
    if RequiredSeen(fields, seen) {
      forall x: nat | x < n ensures x in idx {
        var i := RequiredEntry(fields, x, |fields|);
      }
    }
    if forall x: nat :: x < n ==> x in idx {
      forall i | 0 <= i < |fields| && fields[i].htype.Required? ensures i in seen {
        IndexSeen(fields, seen, i);
      }
    }
  }

  lemma IndexSeen(fields: seq<Field>, seen: set<nat>, i: nat)
    requires i < |fields| && fields[i].htype.Required?
    requires forall x: nat :: x < RequiredCount(fields) ==> x in SeenIndices(fields, seen)
    ensures i in seen
  {
    RequiredMonotone(fields, i, |fields|);
    assert RequiredBefore(fields, i) in SeenIndices(fields, seen);
    var j :| j in seen && j < |fields| && fields[j].htype.Required? && RequiredBefore(fields, j) == RequiredBefore(fields, i);
    if j < i { RequiredMonotone(fields, j, i); } else if i < j { RequiredMonotone(fields, i, j); }
  }

  /**
   The bitset check is exact: wherever its behaviour is defined, it passes if and only if every required entry was
   met at least once. On a complete message it is defined exactly for tracked counts.
   */
  lemma RequiredCheckIsExact(fields: seq<Field>, seen: set<nat>, fieldsSeen: seq<nat>)
    requires Marks(fields, seen, fieldsSeen)
    ensures var n, c := RequiredCount(fields), CheckWords(fieldsSeen, RequiredCount(fields));
            && (c.Some? ==> c.value == RequiredSeen(fields, seen))
            && (Tracked(n) ==> c.Some?)
            && (RequiredSeen(fields, seen) ==> (c.Some? <==> Tracked(n)))
  {
    var n, idx := RequiredCount(fields), SeenIndices(fields, seen);
    SeenAll(fields, seen);
    CheckIsExact(idx, n);
    UndefinedIff(LowWord(idx), HighWord(idx), n);
    LowFull(idx);
    HighFull(idx);
  }

  // ----- the smallest count it cannot handle

  /** A message type of n required integers. */
  function Integers(n: nat): (fields: seq<Field>)
    ensures |fields| == n
  {
    seq(n, i requires 0 <= i => Field(i + 1, LVarint, Required, 0, 0, 4, 0, None))
  }

  function Below(n: nat): (s: set<nat>)
    ensures forall i: nat :: i in s <==> i < n
  {
    if n == 0 then {} else Below(n - 1) + {n - 1}
  }

  lemma {:induction false} AllRequired(n: nat, i: nat)
    requires i <= n
    ensures RequiredBefore(Integers(n), i) == i
  {
    if i > 0 { AllRequired(n, i - 1); }
  }

  /** At every untracked count there is a message type whose complete messages meet the undefined case. */
  lemma CompleteButUndefined(n: nat, fieldsSeen: seq<nat>)
    requires !Tracked(n) && n < TAG_LIMIT - 1 && Marks(Integers(n), Below(n), fieldsSeen)
    ensures WellFormed(Integers(n)) && RequiredSeen(Integers(n), Below(n))
    ensures CheckWords(fieldsSeen, RequiredCount(Integers(n))).None?
  {
    AllRequired(n, n);
    RequiredCheckIsExact(Integers(n), Below(n), fieldsSeen);
  }

  /** The first one: with 32 required fields, all of them met, the last comparison shifts by 32. */
  lemma ThirtyTwoRequired(fieldsSeen: seq<nat>)
    requires Marks(Integers(32), Below(32), fieldsSeen)
    ensures WellFormed(Integers(32)) && RequiredSeen(Integers(32), Below(32))
    ensures CheckWords(fieldsSeen, RequiredCount(Integers(32))).None?
  {
    CompleteButUndefined(32, fieldsSeen);
  }

  // ----- descriptors the decoder can run on

  /** Distinct tags and a required count its bitset can handle, at every depth. */
  ghost predicate Decodable(fields: seq<Field>)
    decreases fields, 1
  {
    && DistinctTags(fields)
    && Tracked(RequiredCount(fields))
    && forall f :: f in fields ==> DecodableField(f)
  }

  ghost predicate DecodableField(f: Field)
    decreases f, 0
  {
    f.ltype.LSubmessage? ==> Decodable(f.ltype.fields)
  }
}
