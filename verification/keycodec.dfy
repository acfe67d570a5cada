/** The key codec of the loader (`GeneBankCreateBTree.java:139-182`): a DNA
    string packed two bits per base into a Java `long`, the last base in
    the lowest bits, and the decoder that unpacks `k` bases again.

    The `long` is modelled as its 64-bit pattern cut into 32 two-bit slots,
    slot 0 lowest. Java masks a `long` shift distance to its low six bits,
    so the base `m` places from the end lands in slot `m % 32`, or-ed into
    whatever is there: strings longer than 32 bases fold over. */
module KeyCodec {
  import opened Base

  predicate IsBase(c: char)
  {
    c == 'a' || c == 'c' || c == 'g' || c == 't'
  }

  predicate IsDna(s: seq<char>)
  {
    forall i :: 0 <= i < |s| ==> IsBase(s[i])
  }

  /** The code `seq_encode`'s `switch` gives a character: a=0, c=1, g=2,
      t=3. The `switch` has no default, so any other character keeps the
      code `prev` of the character after it. */
  function Code(c: char, prev: nat): (d: nat)
    requires prev < 4
    ensures d < 4
    ensures IsBase(c) ==> Letter(d) == [c]
    ensures !IsBase(c) ==> d == prev
  {
    if c == 'a' then 0 else if c == 't' then 3 else if c == 'c' then 1 else if c == 'g' then 2 else prev
  }

  /** What `key_decode` prepends for a digit: the base of a code 0 to 3,
      nothing for anything else. */
  function Letter(d: int): (r: seq<char>)
    ensures |r| <= 1 && (forall i :: 0 <= i < |r| ==> IsBase(r[i]))
    ensures 0 <= d < 4 <==> |r| == 1
  {
    if d == 0 then ['a'] else if d == 3 then ['t'] else if d == 1 then ['c'] else if d == 2 then ['g'] else []
  }

  /** Bitwise or of two two-bit values. */
  function Or2(a: nat, b: nat): (r: nat)
    requires a < 4 && b < 4
    ensures r < 4 && (a == 0 ==> r == b) && (b == 0 ==> r == a)
  {
    if a == b || b == 0 then a else if a == 0 then b else 3
  }

  predicate IsSlots(ds: seq<nat>)
  {
    |ds| == 32 && forall q :: 0 <= q < 32 ==> ds[q] < 4
  }

  function Zeros(): (ds: seq<nat>)
    ensures IsSlots(ds) && forall q :: 0 <= q < 32 ==> ds[q] == 0
  {
    seq(32, _ => 0)
  }

  function Pow4(n: nat): (r: nat)
    ensures r >= 1
  {
    if n == 0 then 1 else 4 * Pow4(n - 1)
  }

  const Two63: int := 0x8000_0000_0000_0000
  const Two64: int := 0x1_0000_0000_0000_0000

  /** The number whose base-4 digits are `ds`, lowest first. */
  function Value(ds: seq<nat>): (r: nat)
    requires forall q :: 0 <= q < |ds| ==> ds[q] < 4
    ensures r < Pow4(|ds|)
  {
    if ds == [] then 0 else ds[0] + 4 * Value(ds[1..])
  }

  /** Digit `q` in base 4 of `u`: what `(u & (3L << 2q)) >>> 2q` reads. */
  function Digit(u: nat, q: nat): (r: nat)
    ensures r < 4
  {
    if q == 0 then u % 4 else Digit(u / 4, q - 1)
  }

  /** A 64-bit pattern read as a Java `long`. */
  function ToLong(u: nat): (r: Int64)
    requires u < Two64
    ensures 0 <= r <==> u < Two63
  {
    if u < Two63 then u else u - Two64
  }

  /** The 64-bit pattern of a Java `long`. */
  function Unsigned(key: Int64): (u: nat)
    ensures u < Two64
  {
    if key < 0 then key + Two64 else key
  }

  /** The loop of `seq_encode`, `m` characters in from the end, `digit` the
      code of the last character handled: the next character's code is or-ed
      into slot `m % 32`. */
  function EncodeFrom(s: seq<char>, m: nat, digit: nat, ds: seq<nat>): (r: seq<nat>)
    requires m <= |s| && digit < 4 && IsSlots(ds)
    ensures IsSlots(r)
    decreases |s| - m
  {
    if m == |s| then ds
    else
      var d := Code(s[|s| - 1 - m], digit);
      EncodeFrom(s, m + 1, d, ds[m % 32 := Or2(ds[m % 32], d)])
  }

  /** `seq_encode(s)` (`GeneBankCreateBTree.java:159-182`). */
  function SeqEncode(s: seq<char>): (key: Int64)
  {
    var ds := EncodeFrom(s, 0, 0, Zeros());
    assert Pow4(32) == Two64 by { Pow4Of31(); }
    ToLong(Value(ds))
  }

  /** The digit `key_decode` computes at step `i`: the slot `i % 32` of the
      pattern, shifted back down arithmetically, so the top slot of a
      negative key reads as its value minus 4. */
  function DecodeDigit(key: Int64, i: nat): (d: int)
    ensures key >= 0 ==> 0 <= d < 4
  {
    var q := i % 32;
    var d := Digit(Unsigned(key), q);
    assert key >= 0 && q == 31 ==> d < 2 by {
      if key >= 0 && q == 31 {
        Pow4Of31();
        DigitBelow(Unsigned(key), 31, 2);
      }
    }
    if q == 31 && d >= 2 then d - 4 else d
  }

  /** `key_decode(key, k)` after its first `n` steps: the letters of digits
      `n-1` down to 0. */
  function DecodeUpTo(key: Int64, n: nat): (r: seq<char>)
    ensures IsDna(r)
    ensures key >= 0 ==> |r| == n
  {
    if n == 0 then [] else Letter(DecodeDigit(key, n - 1)) + DecodeUpTo(key, n - 1)
  }

  /** `key_decode(key, k)` (`GeneBankCreateBTree.java:139-157`); a `k` of
      zero or less runs no step. */
  function KeyDecode(key: Int64, k: int): (r: seq<char>)
    ensures IsDna(r)
    ensures key >= 0 && k >= 0 ==> |r| == k
  {
    if k <= 0 then [] else DecodeUpTo(key, k)
  }

  /** A number below `c * 4^q` has digit `q` below `c`. */
  lemma {:induction false} DigitBelow(u: nat, q: nat, c: nat)
    requires c <= 4 && u < c * Pow4(q)
    ensures Digit(u, q) < c
    decreases q
  {
    if q > 0 {
      assert u / 4 < c * Pow4(q - 1);
      DigitBelow(u / 4, q - 1, c);
    }
  }

  /** The digits of `Value(ds)` are `ds`. */
  lemma {:induction false} DigitOfValue(ds: seq<nat>, q: nat)
    requires (forall j :: 0 <= j < |ds| ==> ds[j] < 4) && q < |ds|
    ensures Digit(Value(ds), q) == ds[q]
    decreases q
  {
    var v := Value(ds);
    assert v == ds[0] + 4 * Value(ds[1..]);
    if q > 0 {
      assert v / 4 == Value(ds[1..]);
      DigitOfValue(ds[1..], q - 1);
    }
  }

  /** The slots after the encoder's loop, for a DNA string of at most 32
      bases: slot `m` holds the code of the base `m` places from the end. */
  lemma {:induction false} EncodeSlots(s: seq<char>, m: nat, digit: nat, ds: seq<nat>)
    requires IsDna(s) && |s| <= 32 && m <= |s| && digit < 4 && IsSlots(ds)
    requires forall q :: 0 <= q < m ==> ds[q] == Code(s[|s| - 1 - q], 0)
    requires forall q :: m <= q < 32 ==> ds[q] == 0
    ensures forall q :: 0 <= q < |s| ==> EncodeFrom(s, m, digit, ds)[q] == Code(s[|s| - 1 - q], 0)
    decreases |s| - m
  {
    if m < |s| {
      var d := Code(s[|s| - 1 - m], digit);
      var ds' := ds[m % 32 := Or2(ds[m % 32], d)];
      assert m % 32 == m && ds'[m] == d == Code(s[|s| - 1 - m], 0);
      assert EncodeFrom(s, m, digit, ds) == EncodeFrom(s, m + 1, d, ds');
      EncodeSlots(s, m + 1, d, ds');
    }
  }

  /** For any string of at most 32 characters, the encoder's loop leaves
      the slots past the string's length 0. */
  lemma {:induction false} EncodeHigh(s: seq<char>, m: nat, digit: nat, ds: seq<nat>)
    requires |s| <= 32 && m <= |s| && digit < 4 && IsSlots(ds)
    requires forall q :: m <= q < 32 ==> ds[q] == 0
    ensures forall q :: |s| <= q < 32 ==> EncodeFrom(s, m, digit, ds)[q] == 0
    decreases |s| - m
  {
    if m < |s| {
      var d := Code(s[|s| - 1 - m], digit);
      var ds' := ds[m % 32 := Or2(ds[m % 32], d)];
      assert m % 32 == m;
      assert EncodeFrom(s, m, digit, ds) == EncodeFrom(s, m + 1, d, ds');
      EncodeHigh(s, m + 1, d, ds');
    }
  }

  /** The number `seq_encode` stands for: the bases as base-4 digits, the
      last base lowest, i.e. the sum of `code(s[i]) * 4^(|s|-1-i)`. */
  function Pack(s: seq<char>): (r: nat)
    ensures r < Pow4(|s|)
  {
    if s == [] then 0 else 4 * Pack(s[..|s| - 1]) + Code(s[|s| - 1], 0)
  }

  /** For a string of at most 31 characters the key is non-negative and
      below `4^|s|`: no slot is shared and the sign bit stays clear. */
  lemma EncodeRange(s: seq<char>)
    requires |s| <= 31
    ensures 0 <= SeqEncode(s) < Pow4(|s|)
  {
    var ds := EncodeFrom(s, 0, 0, Zeros());
    EncodeHigh(s, 0, 0, Zeros());
    ValueBelow(ds, |s|);
    Pow4Of31();
    Pow4Mono(|s|, 31);
  }

  /** A DNA string of at most 31 bases encodes to the number it spells in
      base 4. */
  lemma EncodePack(s: seq<char>)
    requires IsDna(s) && |s| <= 31
    ensures SeqEncode(s) == Pack(s)
  {
    hide Pow4, Pack, EncodeFrom, Code, Value, Or2, Letter, SeqEncode;
    EncodeSlots(s, 0, 0, Zeros());
    EncodeHigh(s, 0, 0, Zeros());
    ValuePack(s, EncodeFrom(s, 0, 0, Zeros()));
    EncodeValue(s);
  }

  /** Below 32 bases the sign bit stays clear, so the key is the slots'
      value itself. */
  lemma EncodeValue(s: seq<char>)
    requires |s| <= 31
    ensures SeqEncode(s) == Value(EncodeFrom(s, 0, 0, Zeros()))
  {
    EncodeRange(s);
  }

  lemma {:induction false} ValuePack(s: seq<char>, ds: seq<nat>)
    requires (forall q :: 0 <= q < |ds| ==> ds[q] < 4) && |s| <= |ds|
    requires forall q :: 0 <= q < |s| ==> ds[q] == Code(s[|s| - 1 - q], 0)
    requires forall q :: |s| <= q < |ds| ==> ds[q] == 0
    ensures Value(ds) == Pack(s)
    decreases |s|
  {
    if s == [] {
      ZeroValue(ds);
    } else {
      var init := s[..|s| - 1];
      forall q | 0 <= q < |init|
        ensures ds[1..][q] == Code(init[|init| - 1 - q], 0)
      {
        assert init[|init| - 1 - q] == s[|s| - 1 - (q + 1)];
      }
      ValuePack(init, ds[1..]);
    }
  }

  /** Equal-length DNA strings of at most 31 bases get different keys. */
  lemma EncodeInjective(s1: seq<char>, s2: seq<char>)
    requires IsDna(s1) && IsDna(s2) && |s1| == |s2| <= 31
    requires SeqEncode(s1) == SeqEncode(s2)
    ensures s1 == s2
  {
    DecodeEncode(s1);
    DecodeEncode(s2);
  }

  /** The loader's encoding check (`GeneBankCreateBTree.java:102-107`) on a
      string of at most 31 characters passes exactly when it is DNA. */
  lemma CheckPasses(s: seq<char>)
    requires |s| <= 31
    ensures KeyDecode(SeqEncode(s), |s|) == s <==> IsDna(s)
  {
    if IsDna(s) {
      DecodeEncode(s);
    }
  }

  /** The pattern of a non-negative `long` is the number itself, and a
      pattern read as a `long` has that pattern. */
  lemma UnsignedToLong(u: nat)
    requires u < Two64
    ensures Unsigned(ToLong(u)) == u
  {
  }

  /** `key_decode(seq_encode(s), |s|) == s` for a DNA string of 1 to 31
      bases: the check the loader makes before every insert passes. */
  lemma {:induction false} DecodeEncode(s: seq<char>)
    requires IsDna(s) && |s| <= 31
    ensures SeqEncode(s) >= 0
    ensures KeyDecode(SeqEncode(s), |s|) == s
  {
    var ds := EncodeFrom(s, 0, 0, Zeros());
    EncodeSlots(s, 0, 0, Zeros());
    EncodeHigh(s, 0, 0, Zeros());
    var v := Value(ds);
    ValueBelow(ds, |s|);
    assert Pow4(31) < Two63 by { Pow4Of31(); }
    Pow4Mono(|s|, 31);
    UnsignedToLong(v);
    var key := SeqEncode(s);
    assert Unsigned(key) == v;
    forall n | 0 <= n <= |s|
      ensures DecodeUpTo(key, n) == s[|s| - n..]
    {
      DecodeSuffix(s, ds, key, n);
    }
    assert s[0..] == s;
  }

  lemma {:induction false} DecodeSuffix(s: seq<char>, ds: seq<nat>, key: Int64, n: nat)
    requires |s| <= 31 && n <= |s| && IsSlots(ds) && Unsigned(key) == Value(ds)
    requires IsDna(s) && forall q :: 0 <= q < |s| ==> ds[q] == Code(s[|s| - 1 - q], 0)
    ensures DecodeUpTo(key, n) == s[|s| - n..]
    decreases n
  {
    if n > 0 {
      DecodeSuffix(s, ds, key, n - 1);
      SlotDigit(ds, key, n - 1);
      assert s[|s| - n..] == [s[|s| - n]] + s[|s| - (n - 1)..];
    }
  }

  /** Below the top slot, `key_decode` reads back the slots of the key. */
  lemma SlotDigit(ds: seq<nat>, key: Int64, q: nat)
    requires IsSlots(ds) && Unsigned(key) == Value(ds) && q < 31
    ensures DecodeDigit(key, q) == ds[q]
  {
    DigitOfValue(ds, q);
  }

  /** A value whose digits from `n` on are 0 is below `4^n`. */
  lemma {:induction false} ValueBelow(ds: seq<nat>, n: nat)
    requires (forall q :: 0 <= q < |ds| ==> ds[q] < 4) && n <= |ds|
    requires forall q :: n <= q < |ds| ==> ds[q] == 0
    ensures Value(ds) < Pow4(n)
    decreases n
  {
    if n == 0 {
      ZeroValue(ds);
    } else {
      ValueBelow(ds[1..], n - 1);
    }
  }

  lemma {:induction false} ZeroValue(ds: seq<nat>)
    requires forall q :: 0 <= q < |ds| ==> ds[q] == 0
    ensures Value(ds) == 0
    decreases |ds|
  {
    if ds != [] {
      ZeroValue(ds[1..]);
    }
  }

  lemma {:induction false} Pow4Mono(a: nat, b: nat)
    requires a <= b
    ensures Pow4(a) <= Pow4(b)
    decreases b
  {
    if a < b {
      Pow4Mono(a, b - 1);
    }
  }

  lemma Pow4Of31()
    ensures Pow4(31) == 0x4000_0000_0000_0000 && 2 * Pow4(31) == Two63
    ensures Pow4(32) == Two64
  {
    assert Pow4(8) == 0x1_0000;
    assert Pow4(16) == 0x1_0000_0000 by { Pow4Add(8, 8); }
    assert Pow4(31) == Pow4(16) * Pow4(15) by { Pow4Add(16, 15); }
    assert Pow4(15) == 0x4000_0000 by { Pow4Add(8, 7); }
  }

  lemma {:induction false} Pow4Add(a: nat, b: nat)
    ensures Pow4(a + b) == Pow4(a) * Pow4(b)
    decreases b
  {
    if b > 0 {
      Pow4Add(a, b - 1);
    }
  }
}
