/** `addTEntryMF`: the controller encodes a value and a mask of as many ones as the field has bits. */
module ControllerEncoding {
  import opened MatchTranslation

  /** The values of the controller's integer type of `n` bytes, all bits set. */
  function TypeMask(n: nat): bv32
    requires SizeOk(n)
  {
    if n == 1 then 0xff else if n == 2 then 0xffff else 0xffff_ffff
  }

  /** One turn of the mask loop; a shift beyond the integer type is lost. */
  function Grow(mask: bv32, n: nat): bv32
    requires SizeOk(n)
  {
    And(mask << 1, TypeMask(n)) | 1
  }

  /** As many ones as the width says, at most as many as the type has bits. */
  function Ones(width: nat, n: nat): bv32
    requires SizeOk(n)
  {
    if width == 0 then 0 else Grow(Ones(width - 1, n), n)
  }

  /** The ternary match field for the value `mf` of an integer type of `n` bytes. */
  method TernaryField(id: nat, mf: bv32, n: nat, bitWidth: nat) returns (field: MatchField)
    requires SizeOk(n) && FitsIn(mf, n)
    ensures field == MatchField(id, Ternary, Encoded(mf, n), 0, Encoded(Ones(bitWidth, n), n))
  {
    hide Encoded, TypeMask, And, Grow;
    var mask: bv32, left: nat := 0, bitWidth;
    while left > 0
      invariant left <= bitWidth && mask == Ones(bitWidth - left, n)
    {
      left := left - 1;
      mask := Grow(mask, n);
    }
    return MatchField(id, Ternary, Encoded(mf, n), 0, Encoded(mask, n));
  }

  /** The last `width` bits are the same: the numbers agree modulo 2 to the power of `width`. */
  predicate SameLow(x: bv32, v: bv32, width: nat) {
    width == 0 || (LastBit(x) == LastBit(v) && SameLow(Half(x), Half(v), width - 1))
  }

  function LastBit(x: bv32): bv32 {
    x & 1
  }

  function Half(x: bv32): bv32 {
    x >> 1
  }

  function Join(x: bv32, b: bv32): bv32 {
    (x << 1) | b
  }

  // ----- What the field accepts -----

  /** The mask without the limit of the type. */
  function Endless(width: nat): bv32 {
    if width == 0 then 0 else Join(Endless(width - 1), 1)
  }

  lemma Limited(mask: bv32, n: nat)
    requires SizeOk(n)
    ensures Grow(And(mask, TypeMask(n)), n) == And(Join(mask, 1), TypeMask(n))
    ensures FitsIn(And(mask, TypeMask(n)), n)
  {
  }

  lemma NoOnes(mask: bv32)
    ensures And(0, mask) == 0 && And(mask, 0) == 0
  {
  }

  lemma {:induction false} OnesAreLimited(width: nat, n: nat)
    requires SizeOk(n)
    ensures Ones(width, n) == And(Endless(width), TypeMask(n))
  {
    hide And, Join, TypeMask, Grow;
    if width == 0 {
      NoOnes(TypeMask(n));
    } else {
      OnesAreLimited(width - 1, n);
      Limited(Endless(width - 1), n);
    }
  }

  lemma JoinedAnd(x: bv32, mask: bv32)
    ensures And(x, Join(mask, 1)) == Join(And(Half(x), mask), LastBit(x)) && And(Half(x), mask) <= 0x7fff_ffff
  {
  }

  lemma JoinInjective(a: bv32, b: bv32, c: bv32, d: bv32)
    requires a <= 0x7fff_ffff && c <= 0x7fff_ffff && b <= 1 && d <= 1 && Join(a, b) == Join(c, d)
    ensures a == c && b == d
  {
  }

  lemma LastBits(x: bv32)
    ensures LastBit(x) <= 1
  {
  }

  lemma LastBitFirst(x: bv32, v: bv32, mask: bv32)
    ensures Agree(x, v, Join(mask, 1)) <==> LastBit(x) == LastBit(v) && Agree(Half(x), Half(v), mask)
  {
    hide And, Join, Half, LastBit;
    JoinedAnd(x, mask);
    JoinedAnd(v, mask);
    LastBits(x);
    LastBits(v);
    if Agree(x, v, Join(mask, 1)) {
      JoinInjective(And(Half(x), mask), LastBit(x), And(Half(v), mask), LastBit(v));
    }
  }

  lemma {:induction false} EndlessAgree(x: bv32, v: bv32, width: nat)
    ensures Agree(x, v, Endless(width)) <==> SameLow(x, v, width)
    decreases width
  {
    if width == 0 {
      NoOnes(x);
      NoOnes(v);
    } else {
      hide Agree, Half, LastBit, Join;
      EndlessAgree(Half(x), Half(v), width - 1);
      LastBitFirst(x, v, Endless(width - 1));
    }
  }

  lemma LimitedAnd(x: bv32, mask: bv32, n: nat)
    requires SizeOk(n) && FitsIn(x, n)
    ensures And(x, And(mask, TypeMask(n))) == And(x, mask)
  {
  }

  /** A field built by the controller accepts the numbers of its type that end in the same `width` bits. */
  lemma ControllerFieldAccepts(id: nat, v: bv32, n: nat, width: nat, x: bv32)
    requires SizeOk(n) && FitsIn(v, n) && FitsIn(x, n)
    ensures FieldMatches(MatchField(id, Ternary, Encoded(v, n), 0, Encoded(Ones(width, n), n)), 8 * n, Encoded(x, n)) <==>
            SameLow(x, v, width)
  {
    hide FieldMatches, Encoded, SameLow, And, TypeMask, Ones, Endless;
    OnesAreLimited(width, n);
    Limited(Endless(width), n);
    EncodedMeaning(id, v, Ones(width, n), x, n);
    LimitedAnd(x, Endless(width), n);
    LimitedAnd(v, Endless(width), n);
    EndlessAgree(x, v, width);
  }
}
