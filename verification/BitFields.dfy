/** Writing a component into a word: `(word & ~(max << shift)) | (v << shift)`
    (VCamUtils/src/videoconverter.cpp, `write1`, `write3`, `write3A`). */
module BitFields {
  import opened Arithmetic
  import opened Bytes
  import opened FrameLayout
  import opened Samples

  function And(a: nat, b: nat): (r: nat)
  {
    if a == 0 || b == 0 then 0 else (if a % 2 == 1 && b % 2 == 1 then 1 else 0) + 2 * And(a / 2, b / 2)
  }

  function Or(a: nat, b: nat): (r: nat)
  {
    if a == 0 && b == 0 then 0 else (if a % 2 == 1 || b % 2 == 1 then 1 else 0) + 2 * Or(a / 2, b / 2)
  }

  lemma {:induction false} AndSelf(a: nat)
    ensures And(a, a) == a
  {
    if a > 0 {
      AndSelf(a / 2);
    }
  }

  /** The depth test of `isFast`: no bit is shared with the predecessor. */
  lemma {:induction false} PowerOfTwoTest(depth: nat)
    requires depth >= 1
    ensures And(depth, depth - 1) == 0 <==> PowerOfTwoDepth(depth)
  {
    if depth % 2 == 1 {
      AndSelf(depth / 2);
      assert (depth - 1) / 2 == depth / 2;
    } else {
      PowerOfTwoTest(depth / 2);
      assert (depth - 1) / 2 == depth / 2 - 1;
    }
  }

  /** The component's bits in a word of `bits` bits. */
  function FieldMask(shift: nat, depth: nat, bits: nat): (r: nat)
    ensures r < Pow2(bits)
  {
    (Pow2(depth) - 1) * Pow2(shift) % Pow2(bits)
  }

  /** The word after the component is set. Both the cast of `v` and the shift keep `bits` bits. */
  function Insert(word: nat, shift: nat, depth: nat, v: int, bits: nat): (r: nat)
  {
    Or(And(word, Pow2(bits) - 1 - FieldMask(shift, depth, bits)), v % Pow2(bits) * Pow2(shift) % Pow2(bits))
  }

  /** The word with bits `shift .. shift + depth` replaced by those of `v`, bit by bit. */
  function Spliced(word: nat, shift: nat, depth: nat, v: nat): (r: nat)
  {
    if shift > 0 then word % 2 + 2 * Spliced(word / 2, shift - 1, depth, v)
    else if depth > 0 then v % 2 + 2 * Spliced(word / 2, 0, depth - 1, v / 2)
    else word
  }

  lemma {:induction false} AndFull(word: nat, bits: nat)
    requires word < Pow2(bits)
    ensures And(word, Pow2(bits) - 1) == word
  {
    if bits > 0 && word > 0 {
      AndFull(word / 2, bits - 1);
      assert (Pow2(bits) - 1) / 2 == Pow2(bits - 1) - 1;
    }
  }

  lemma {:induction false} OrZero(v: nat)
    ensures Or(v, 0) == v && Or(0, v) == v
  {
    if v > 0 {
      OrZero(v / 2);
    }
  }

  lemma {:induction false} OrFull(word: nat, bits: nat)
    requires word < Pow2(bits)
    ensures Or(word, Pow2(bits) - 1) == Pow2(bits) - 1
  {
    if bits > 0 {
      OrFull(word / 2, bits - 1);
      var p := Pow2(bits - 1);
      assert Pow2(bits) == 2 * p && (2 * p - 1) / 2 == p - 1 && (2 * p - 1) % 2 == 1;
    }
  }

  /** `max << shift` and `v << shift`, one doubling at a time. */
  function Ones(shift: nat, depth: nat): (r: nat)
  {
    if shift > 0 then 2 * Ones(shift - 1, depth) else if depth > 0 then 1 + 2 * Ones(0, depth - 1) else 0
  }

  function Shl(v: nat, shift: nat): (r: nat)
  {
    if shift == 0 then v else 2 * Shl(v, shift - 1)
  }

  lemma Doubled(d: int, s: int)
    ensures d * (2 * s) == 2 * (d * s)
  {
  }

  lemma {:induction false} OnesIs(shift: nat, depth: nat)
    ensures Ones(shift, depth) == (Pow2(depth) - 1) * Pow2(shift)
    decreases shift + depth
  {
    if shift > 0 {
      OnesIs(shift - 1, depth);
      Doubled(Pow2(depth) - 1, Pow2(shift - 1));
    } else if depth > 0 {
      OnesIs(0, depth - 1);
      assert Pow2(0) == 1;
    }
  }

  lemma {:induction false} ShlIs(v: nat, shift: nat)
    ensures Shl(v, shift) == v * Pow2(shift)
  {
    if shift > 0 {
      ShlIs(v, shift - 1);
      Doubled(v, Pow2(shift - 1));
    }
  }

  lemma {:induction false} FieldFits(shift: nat, depth: nat, v: nat, bits: nat)
    requires shift + depth <= bits && v < Pow2(depth)
    ensures Ones(shift, depth) < Pow2(bits) && Shl(v, shift) < Pow2(bits) && v < Pow2(bits)
    decreases shift + depth
  {
    if shift > 0 {
      FieldFits(shift - 1, depth, v, bits - 1);
    } else if depth > 0 {
      FieldFits(0, depth - 1, v / 2, bits - 1);
    }
  }

  /** Masking and setting is splicing: the field fits its word, so nothing of the mask or of an in-range value
      is cut off. */
  lemma InsertSplices(word: nat, shift: nat, depth: nat, v: nat, bits: nat)
    requires shift + depth <= bits && word < Pow2(bits) && v < Pow2(depth)
    ensures Insert(word, shift, depth, v, bits) == Spliced(word, shift, depth, v)
  {
    hide And, Or, Spliced, Ones, Shl, Pow2, FieldMask;
    FieldFits(shift, depth, v, bits);
    MaskIs(shift, depth, bits);
    ValueIs(shift, v, bits);
    MaskedSplices(word, shift, depth, v, bits);
  }

  lemma MaskIs(shift: nat, depth: nat, bits: nat)
    requires Ones(shift, depth) < Pow2(bits)
    ensures FieldMask(shift, depth, bits) == Ones(shift, depth)
  {
    hide Ones, Pow2;
    OnesIs(shift, depth);
    DivIs(Ones(shift, depth), Pow2(bits), 0);
  }

  lemma ValueIs(shift: nat, v: nat, bits: nat)
    requires v < Pow2(bits) && Shl(v, shift) < Pow2(bits)
    ensures v % Pow2(bits) * Pow2(shift) % Pow2(bits) == Shl(v, shift)
  {
    hide Shl, Pow2;
    ShlIs(v, shift);
    DivIs(v, Pow2(bits), 0);
    assert v % Pow2(bits) == v;
    DivIs(Shl(v, shift), Pow2(bits), 0);
  }

  lemma {:induction false} MaskedSplices(word: nat, shift: nat, depth: nat, v: nat, bits: nat)
    requires shift + depth <= bits && word < Pow2(bits) && v < Pow2(depth)
    ensures Ones(shift, depth) < Pow2(bits)
    ensures Or(And(word, Pow2(bits) - 1 - Ones(shift, depth)), Shl(v, shift)) == Spliced(word, shift, depth, v)
    decreases shift + depth
  {
    hide And, Or;
    FieldFits(shift, depth, v, bits);
    if shift > 0 {
      MaskedSplices(word / 2, shift - 1, depth, v, bits - 1);
      LowBitKept(word, Pow2(bits - 1) - 1 - Ones(shift - 1, depth), Shl(v, shift - 1));
    } else if depth > 0 {
      MaskedSplices(word / 2, 0, depth - 1, v / 2, bits - 1);
      LowBitSet(word, Pow2(bits - 1) - 1 - Ones(0, depth - 1), v);
    } else {
      AndFull(word, bits);
      OrZero(word);
    }
  }

  /** One step below the field: the mask bit is one, the value bit zero. */
  lemma LowBitKept(word: nat, mask: nat, v: nat)
    ensures Or(And(word, 2 * mask + 1), 2 * v) == word % 2 + 2 * Or(And(word / 2, mask), v)
  {
    var a := And(word, 2 * mask + 1);
    assert a == word % 2 + 2 * And(word / 2, mask);
    assert a / 2 == And(word / 2, mask) && a % 2 == word % 2;
    if a == 0 && v == 0 {
      OrZero(0);
    }
  }

  /** One step inside the field: the mask bit is zero. */
  lemma LowBitSet(word: nat, mask: nat, v: nat)
    ensures Or(And(word, 2 * mask), v) == v % 2 + 2 * Or(And(word / 2, mask), v / 2)
  {
    var a := And(word, 2 * mask);
    assert a == 2 * And(word / 2, mask);
    assert a / 2 == And(word / 2, mask) && a % 2 == 0;
    if a == 0 && v == 0 {
      OrZero(0);
    }
  }

  lemma FieldStep(word: nat, shift: nat, depth: nat)
    ensures shift > 0 ==> Field(word, shift, depth) == Field(word / 2, shift - 1, depth)
    ensures depth > 0 ==> Field(word, 0, depth) == word % 2 + 2 * Field(word / 2, 0, depth - 1)
    ensures Field(word, shift, 0) == 0
  {
    if shift > 0 {
      HalfThenDivide(word, Pow2(shift - 1));
    }
    if depth > 0 {
      HalfOfRemainder(word, Pow2(depth - 1));
    }
  }

  lemma HalfThenDivide(word: nat, p: nat)
    requires p >= 1
    ensures word / (2 * p) == word / 2 / p
  {
    var q := word / 2 / p;
    assert word == 2 * (word / 2) + word % 2 && word / 2 == p * q + word / 2 % p;
    assert 2 * p * q == 2 * (p * q);
    DivIs(word, 2 * p, q);
  }

  lemma HalfOfRemainder(word: nat, p: nat)
    requires p >= 1
    ensures word % (2 * p) == word % 2 + 2 * (word / 2 % p)
  {
    var q := word / 2 / p;
    assert word == 2 * (word / 2) + word % 2 && word / 2 == p * q + word / 2 % p;
    assert 2 * p * q == 2 * (p * q);
    DivIs(word, 2 * p, q);
  }

  /** The field of a spliced word is the new value. */
  lemma {:induction false} SplicedField(word: nat, shift: nat, depth: nat, v: nat)
    requires v < Pow2(depth)
    ensures Field(Spliced(word, shift, depth, v), shift, depth) == v
    decreases shift + depth
  {
    hide Field;
    var r := Spliced(word, shift, depth, v);
    FieldStep(r, shift, depth);
    if shift > 0 {
      SplicedField(word / 2, shift - 1, depth, v);
    } else if depth > 0 {
      SplicedField(word / 2, 0, depth - 1, v / 2);
    }
  }

  /** Fields that do not overlap the spliced one keep their value. */
  lemma {:induction false} SplicedElsewhere(word: nat, shift: nat, depth: nat, v: nat, shift': nat, depth': nat)
    requires shift + depth <= shift' || shift' + depth' <= shift
    ensures Field(Spliced(word, shift, depth, v), shift', depth') == Field(word, shift', depth')
    decreases shift + depth, depth'
  {
    hide Field;
    var r := Spliced(word, shift, depth, v);
    FieldStep(r, shift', depth');
    FieldStep(word, shift', depth');
    if shift > 0 {
      if shift' > 0 {
        SplicedElsewhere(word / 2, shift - 1, depth, v, shift' - 1, depth');
      } else if depth' > 0 {
        SplicedElsewhere(word / 2, shift - 1, depth, v, 0, depth' - 1);
      }
    } else if depth > 0 {
      if shift' > 0 {
        SplicedElsewhere(word / 2, 0, depth - 1, v / 2, shift' - 1, depth');
      }
    }
  }

  lemma {:induction false} SplicedBits(word: nat, shift: nat, depth: nat, v: nat, bits: nat)
    requires shift + depth <= bits && word < Pow2(bits)
    ensures Spliced(word, shift, depth, v) < Pow2(bits)
    decreases shift + depth
  {
    if shift > 0 {
      SplicedBits(word / 2, shift - 1, depth, v, bits - 1);
    } else if depth > 0 {
      SplicedBits(word / 2, 0, depth - 1, v / 2, bits - 1);
    }
  }

  predicate FieldIn(c: Component, bits: nat)
  {
    c.shift + c.depth <= bits
  }

  predicate FieldsApart(c: Component, c': Component)
  {
    c.shift + c.depth <= c'.shift || c'.shift + c'.depth <= c.shift
  }

  function Set(word: nat, c: Component, v: int, bits: nat): (r: nat)
  {
    Insert(word, c.shift, c.depth, v, bits)
  }

  lemma SetOne(word: nat, c: Component, v: nat, bits: nat)
    requires FieldIn(c, bits) && word < Pow2(bits) && v < Pow2(c.depth)
    ensures Set(word, c, v, bits) < Pow2(bits)
    ensures Field(Set(word, c, v, bits), c.shift, c.depth) == v
  {
    hide Insert, Spliced, Field;
    InsertSplices(word, c.shift, c.depth, v, bits);
    SplicedBits(word, c.shift, c.depth, v, bits);
    SplicedField(word, c.shift, c.depth, v);
  }

  lemma SetOther(word: nat, c: Component, v: nat, bits: nat, c': Component)
    requires FieldIn(c, bits) && word < Pow2(bits) && v < Pow2(c.depth) && FieldsApart(c, c')
    ensures Field(Set(word, c, v, bits), c'.shift, c'.depth) == Field(word, c'.shift, c'.depth)
  {
    hide Insert, Spliced, Field;
    InsertSplices(word, c.shift, c.depth, v, bits);
    SplicedElsewhere(word, c.shift, c.depth, v, c'.shift, c'.depth);
  }

  /** The three components of a packed 16-bit pixel, written one after the other into any word, read back as written. */
  lemma PackedPixelRoundTrip(f: PixelFormat, word: nat, u: nat, v: nat, w: nat)
    requires PackedIn16Bits(f) && word < Pow2(16)
    requires var cs := FormatSpecs(f).planes[0].components;
             |cs| == 3 && u < Pow2(cs[0].depth) && v < Pow2(cs[1].depth) && w < Pow2(cs[2].depth)
    ensures var cs := FormatSpecs(f).planes[0].components;
            var r := Set(Set(Set(word, cs[0], u, 16), cs[1], v, 16), cs[2], w, 16);
            && Field(r, cs[0].shift, cs[0].depth) == u
            && Field(r, cs[1].shift, cs[1].depth) == v
            && Field(r, cs[2].shift, cs[2].depth) == w
  {
    hide Field, Set, Pow2;
    var cs := FormatSpecs(f).planes[0].components;
    assert FieldIn(cs[0], 16) && FieldIn(cs[1], 16) && FieldIn(cs[2], 16);
    assert FieldsApart(cs[0], cs[1]) && FieldsApart(cs[1], cs[2]) && FieldsApart(cs[0], cs[2]);
    SetThree(cs[0], cs[1], cs[2], word, u, v, w);
  }

  lemma SetThree(a: Component, b: Component, c: Component, word: nat, u: nat, v: nat, w: nat)
    requires FieldIn(a, 16) && FieldIn(b, 16) && FieldIn(c, 16) && word < Pow2(16)
    requires FieldsApart(a, b) && FieldsApart(b, c) && FieldsApart(a, c)
    requires u < Pow2(a.depth) && v < Pow2(b.depth) && w < Pow2(c.depth)
    ensures var r := Set(Set(Set(word, a, u, 16), b, v, 16), c, w, 16);
            Field(r, a.shift, a.depth) == u && Field(r, b.shift, b.depth) == v && Field(r, c.shift, c.depth) == w
  {
    hide Set, Field, Pow2;
    var r1 := Set(word, a, u, 16);
    SetOne(word, a, u, 16);
    var r2 := Set(r1, b, v, 16);
    SetOne(r1, b, v, 16);
    SetOther(r1, b, v, 16, a);
    SetOne(r2, c, w, 16);
    SetOther(r2, c, w, 16, a);
    SetOther(r2, c, w, 16, b);
  }

  // ----- Reading a packed pixel through a single byte -----

  lemma {:induction false} LowBitsKeepField(word: nat, n: nat, shift: nat, depth: nat)
    requires shift + depth <= n
    ensures Field(word % Pow2(n), shift, depth) == Field(word, shift, depth)
    decreases shift + depth
  {
    hide Field;
    var low := word % Pow2(n);
    FieldStep(low, shift, depth);
    FieldStep(word, shift, depth);
    if shift + depth > 0 {
      HalfOfRemainder(word, Pow2(n - 1));
      if shift > 0 {
        LowBitsKeepField(word / 2, n - 1, shift - 1, depth);
      } else {
        LowBitsKeepField(word / 2, n - 1, 0, depth - 1);
      }
    }
  }

  lemma {:induction false} BitInField(k: nat, shift: nat, depth: nat)
    requires shift <= k < shift + depth
    ensures Field(Pow2(k), shift, depth) != 0
    decreases shift + depth
  {
    hide Field;
    FieldStep(Pow2(k), shift, depth);
    if shift > 0 {
      BitInField(k - 1, shift - 1, depth);
    } else if k > 0 {
      BitInField(k - 1, 0, depth - 1);
    } else {
      FieldNonNegative(0, 0, depth - 1);
    }
  }

  lemma FieldNonNegative(word: nat, shift: nat, depth: nat)
    ensures Field(word, shift, depth) >= 0
  {
  }

  lemma {:induction false} ZeroField(shift: nat, depth: nat)
    ensures Field(0, shift, depth) == 0
    decreases shift + depth
  {
    hide Field;
    FieldStep(0, shift, depth);
    if shift > 0 {
      ZeroField(shift - 1, depth);
    } else if depth > 0 {
      ZeroField(0, depth - 1);
    }
  }

  lemma HighFieldIsZero(word: nat, shift: nat, depth: nat)
    requires word < Pow2(16) && (shift >= 16 || depth == 0)
    ensures Field(word, shift, depth) == 0
  {
    if shift >= 16 {
      Pow2Monotone(16, shift);
      BelowField(word, shift, depth);
    }
  }

  /** The two bytes of a packed pixel as a word, and as the one byte read in its place: the first of the two. */
  lemma PackedWord(data: seq<int>, at: nat, swapped: bool)
    requires AreBytes(data) && at + 2 <= |data|
    ensures (if swapped then LoadSwapped(data, at, 2) else Load(data, at, 2))
            == if swapped then 256 * data[at] + data[at + 1] else data[at] + 256 * data[at + 1]
    ensures LoadSwapped(data, at, 1) == Load(data, at, 1) == data[at]
  {
    assert Load(data, at + 2, 0) == 0 && Load(data, at + 1, 0) == 0 && LoadSwapped(data, at, 0) == 0;
    assert Load(data, at + 1, 1) == data[at + 1];
    assert LoadSwapped(data, at, 1) == data[at];
  }

  /** Reading a sample of the component through a single byte gives what reading it through its word gives. */
  ghost predicate ByteReadRight(l: PlaneLayout, c: Component, swapped: bool)
  {
    forall data: seq<int>, x: nat, y: nat {:trigger ComponentView(data, l, c, 1, swapped).SampleAt(x, y)} ::
      AreBytes(data) && SampleAddress(l, c, x, y) + 2 <= |data| ==>
        ComponentView(data, l, c, 1, swapped).SampleAt(x, y) == ComponentView(data, l, c, 2, swapped).SampleAt(x, y)
  }

  /** The byte read is the low one of a little-endian word and the high one of a big-endian word. It is enough exactly
      for a component in the low eight bits of a little-endian word; the other cases have no bit in the word at all. */
  lemma OneByteEnough(l: PlaneLayout, c: Component, swapped: bool)
    ensures ByteReadRight(l, c, swapped)
            <==> (!swapped && c.shift + c.depth <= 8) || c.depth == 0 || c.shift >= 16
  {
    hide Field, SampleAddress;
    if (!swapped && c.shift + c.depth <= 8) || c.depth == 0 || c.shift >= 16 {
      forall data: seq<int>, x: nat, y: nat | AreBytes(data) && SampleAddress(l, c, x, y) + 2 <= |data|
        ensures ComponentView(data, l, c, 1, swapped).SampleAt(x, y)
                == ComponentView(data, l, c, 2, swapped).SampleAt(x, y)
      {
        var at := SampleAddress(l, c, x, y);
        PackedWord(data, at, swapped);
        OneByteSame(data[at], data[at + 1], c.shift, c.depth, swapped);
      }
    } else {
      var at := SampleAddress(l, c, 0, 0);
      var first, second := TellingBytes(c.shift, c.depth, swapped);
      var data := seq(at, _ => 0) + [first, second];
      PackedWord(data, at, swapped);
      assert data[at] == first && data[at + 1] == second;
      assert ComponentView(data, l, c, 1, swapped).SampleAt(0, 0) != ComponentView(data, l, c, 2, swapped).SampleAt(0,
          0);
    }
  }

  function WordOf(first: int, second: int, swapped: bool): (w: int)
  {
    if swapped then 256 * first + second else first + 256 * second
  }

  lemma OneByteSame(first: nat, second: nat, shift: nat, depth: nat, swapped: bool)
    requires first < 256 && second < 256
    requires (!swapped && shift + depth <= 8) || depth == 0 || shift >= 16
    ensures Field(first, shift, depth) == Field(WordOf(first, second, swapped), shift, depth)
  {
    hide Field;
    WordSizes();
    if depth == 0 || shift >= 16 {
      HighFieldIsZero(first, shift, depth);
      HighFieldIsZero(WordOf(first, second, swapped), shift, depth);
    } else {
      LowBitsKeepField(WordOf(first, second, swapped), 8, shift, depth);
      DivIs(WordOf(first, second, swapped), 256, second);
    }
  }

  lemma WordSizes()
    ensures Pow2(8) == 256 && Pow2(16) == 65536
  {
    assert Pow2(4) == 16 && Pow2(8) == 16 * Pow2(4);
    Pow2Add(8, 8);
  }

  /** Two bytes that tell the readings apart. */
  lemma TellingBytes(shift: nat, depth: nat, swapped: bool) returns (first: nat, second: nat)
    requires depth >= 1 && shift < 16 && (swapped || shift + depth > 8)
    ensures first < 256 && second < 256
    ensures Field(first, shift, depth) != Field(WordOf(first, second, swapped), shift, depth)
  {
    hide Field;
    WordSizes();
    ZeroField(shift, depth);
    if !swapped {
      var k := Max(8, shift);
      first, second := 0, Pow2(k - 8);
      BitInField(k, shift, depth);
      Pow2Add(8, k - 8);
      Pow2Less(k - 8, 8);
    } else if shift < 8 {
      first, second := 0, Pow2(shift);
      BitInField(shift, shift, depth);
      Pow2Less(shift, 8);
    } else {
      first, second := Pow2(shift - 8), 0;
      BitInField(shift, shift, depth);
      Pow2Add(8, shift - 8);
      Pow2Less(shift - 8, 8);
      BelowField(Pow2(shift - 8), shift, depth);
    }
  }

  lemma Pow2Less(a: nat, b: nat)
    requires a < b
    ensures Pow2(a) < Pow2(b)
  {
    Pow2Add(a, b - a);
    assert Pow2(b - a) == 2 * Pow2(b - a - 1);
    MulLe(Pow2(a), 2, Pow2(b - a));
  }

  lemma BelowField(word: nat, shift: nat, depth: nat)
    requires word < Pow2(shift)
    ensures Field(word, shift, depth) == 0
  {
    DivIs(word, Pow2(shift), 0);
  }

  /** The conversion loops choose their word size by colour depth, and read the packed 16-bit formats, of depth five,
      byte by byte: little-endian ones keep just their third component, big-endian ones none. */
  lemma PackedNeedsWords(f: PixelFormat, l: PlaneLayout, i: nat)
    requires PackedIn16Bits(f) && i < 3
    ensures |FormatSpecs(f).planes[0].components| == 3
    ensures ByteReadRight(l, FormatSpecs(f).planes[0].components[i], FormatSpecs(f).endianness != ENDIANNESS_BO)
            <==> i == 2 && FormatSpecs(f).endianness == LittleEndian
  {
    hide Field, Pow2, ByteReadRight;
    OneByteEnough(l, FormatSpecs(f).planes[0].components[i], FormatSpecs(f).endianness != ENDIANNESS_BO);
  }

  /** For instance the third component of a big-endian pixel with the bytes 1, 0: through its word it is 0, through its
      first byte 1. */
  lemma BigEndianLosesThird()
    ensures LoadSwapped([1, 0], 0, 1) == 1 && LoadSwapped([1, 0], 0, 2) == 256
    ensures var c := FormatSpecs(Rgb565be).planes[0].components[2];
            Field(1, c.shift, c.depth) == 1 && Field(256, c.shift, c.depth) == 0
  {
    PackedWord([1, 0], 0, true);
    assert Pow2(4) == 16 && Pow2(5) == 32;
  }
}
