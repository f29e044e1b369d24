/** The byte-by-byte hash of sidecar files: every step can be undone, so one changed byte always shows. */
module SidecarHash {
  import opened Arithmetic
  import opened LittleEndian

  const PRIME: nat := 1099511628211
  const BASIS: nat := 1469598103934665603

  type Word = w: nat | w < 18446744073709551616

  /** The exclusive or of the k lowest bits. */
  function Xor(a: nat, b: nat, k: nat): nat {
    if k == 0 then 0 else (a % 2 + b % 2) % 2 + 2 * Xor(a / 2, b / 2, k - 1)
  }

  lemma {:induction false} XorBound(a: nat, b: nat, k: nat)
    ensures Xor(a, b, k) < Pow2(k)
  {
    if k > 0 {
      XorBound(a / 2, b / 2, k - 1);
    }
  }

  lemma LowestBit(bit: nat, rest: nat)
    requires bit < 2
    ensures (bit + 2 * rest) % 2 == bit && (bit + 2 * rest) / 2 == rest
  {
  }

  lemma XorHalves(a: nat, b: nat, k: nat)
    requires k > 0
    ensures Xor(a, b, k) % 2 == (a % 2 + b % 2) % 2 && Xor(a, b, k) / 2 == Xor(a / 2, b / 2, k - 1)
  {
    LowestBit((a % 2 + b % 2) % 2, Xor(a / 2, b / 2, k - 1));
  }

  lemma {:induction false} XorCommutes(a: nat, b: nat, k: nat)
    ensures Xor(a, b, k) == Xor(b, a, k)
  {
    if k > 0 {
      XorCommutes(a / 2, b / 2, k - 1);
    }
  }

  lemma FlipTwice(p: nat, q: nat)
    requires p < 2 && q < 2
    ensures ((p + q) % 2 + q) % 2 == p
  {
  }

  lemma {:induction false} XorCancels(a: nat, b: nat, k: nat)
    requires a < Pow2(k)
    ensures Xor(Xor(a, b, k), b, k) == a
  {
    if k > 0 {
      XorCancels(a / 2, b / 2, k - 1);
      XorHalves(a, b, k);
      XorHalves(Xor(a, b, k), b, k);
      FlipTwice(a % 2, b % 2);
    }
  }

  function XorByte(a: Byte, b: Byte): (c: Byte) {
    XorBound(a, b, 8);
    assert Pow2(8) == 256;
    Xor(a, b, 8)
  }

  lemma XorByteInjective(a: Byte, b: Byte, c: Byte, d: Byte)
    requires XorByte(a, b) == XorByte(c, d) && (a == c || b == d)
    ensures a == c && b == d
  {
    assert Pow2(8) == 256;
    XorCancels(a, b, 8);
    XorCancels(c, d, 8);
    XorCommutes(a, b, 8);
    XorCommutes(c, d, 8);
    XorCancels(b, a, 8);
    XorCancels(d, c, 8);
  }

  // The exclusive or with a byte changes the lowest byte only.
  function Mixed(hash: Word, value: Byte): (mixed: Word) {
    hash / 256 * 256 + XorByte(hash % 256, value)
  }

  function Product(x: Word): Word { x * PRIME % UINT64_LIMIT }

  /** sidecarHashByte: the product wraps at 64 bits. */
  function HashByte(hash: Word, value: Byte): Word {
    Product(Mixed(hash, value))
  }

  function HashBytes(hash: Word, bytes: seq<Byte>): Word
    decreases |bytes|
  {
    if bytes == [] then hash else HashBytes(HashByte(hash, bytes[0]), bytes[1..])
  }

  // ---- What a step computes ----

  lemma Doubled(x: nat, p: nat)
    ensures x * (2 * p) == 2 * (x * p)
  {
  }

  lemma NextMultiple(p: nat, q: nat)
    ensures p * (q + 1) == p * q + p
  {
  }

  lemma HalfOfQuotient(x: nat, p: nat)
    requires p > 0
    ensures x / 2 / p == x / (2 * p)
  {
    var q := x / 2 / p;
    DivBounds(x / 2, p);
    Doubled(q, p);
    NextMultiple(2 * p, q);
    DivBelow(x, 2 * p, q + 1);
    DivAtLeast(x, 2 * p, q);
  }

  function Bit(a: nat, p: Size): nat { a / p % 2 }

  /** Bit i of the exclusive or is set exactly when one of the two bits i is. */
  lemma {:induction false} XorBit(a: nat, b: nat, k: nat, i: nat)
    requires i < k
    ensures Bit(Xor(a, b, k), Pow2(i)) == (Bit(a, Pow2(i)) + Bit(b, Pow2(i))) % 2
  {
    XorHalves(a, b, k);
    if i > 0 {
      XorBit(a / 2, b / 2, k - 1, i - 1);
      BitOfHalf(Xor(a, b, k), Pow2(i - 1));
      BitOfHalf(a, Pow2(i - 1));
      BitOfHalf(b, Pow2(i - 1));
    }
  }

  lemma BitOfHalf(a: nat, p: Size)
    ensures Bit(a / 2, p) == Bit(a, 2 * p)
  {
    HalfOfQuotient(a, p);
  }

  lemma {:induction false} XorZero(a: nat, k: nat)
    requires a < Pow2(k)
    ensures Xor(a, 0, k) == a
  {
    if k > 0 {
      XorZero(a / 2, k - 1);
    }
  }

  /** A number of k bits does not touch the bits from k on. */
  lemma {:induction false} XorLow(high: nat, low: nat, b: nat, k: nat, j: nat)
    requires low < Pow2(k) && b < Pow2(k) && high < Pow2(j)
    ensures Xor(high * Pow2(k) + low, b, k + j) == high * Pow2(k) + Xor(low, b, k)
  {
    if k == 0 {
      XorZero(high, j);
    } else {
      var half := Pow2(k - 1);
      XorLow(high, low / 2, b / 2, k - 1, j);
      XorLowStep(high * half, low, b, k, j);
      Doubled(high, half);
    }
  }

  lemma XorLowStep(x: nat, low: nat, b: nat, k: nat, j: nat)
    requires k > 0 && Xor(x + low / 2, b / 2, k - 1 + j) == x + Xor(low / 2, b / 2, k - 1)
    ensures Xor(2 * x + low, b, k + j) == 2 * x + Xor(low, b, k)
  {
    assert (2 * x + low) / 2 == x + low / 2 && (2 * x + low) % 2 == low % 2;
  }

  /** sidecarHashByte, with its constants: the exclusive or with the byte times the prime, modulo 2^64. */
  lemma HashByteIs(hash: Word, value: Byte)
    ensures HashByte(hash, value) == Xor(hash, value, 64) * 1099511628211 % 0x1_0000_0000_0000_0000
  {
    assert Pow2(8) == 256;
    SevenBytes();
    DivBelow(hash, 256, Pow2(56));
    XorLow(hash / 256, hash % 256, value, 8, 56);
  }

  lemma SevenBytes()
    ensures Pow2(56) == 72057594037927936
  {
    assert Pow2(8) == 256;
    Pow2Add(8, 8);
    Pow2Add(16, 8);
    Pow2Add(24, 24);
    Pow2Add(48, 8);
  }

  /** Known answers: the empty string, and strings of one byte. */
  lemma KnownAnswers()
    ensures HashBytes(BASIS, []) == 1469598103934665603
    ensures HashBytes(BASIS, [0]) == 4953163356653287321 && HashBytes(BASIS, [1]) == 4953162257141659110
  {
    assert Pow2(8) == 256;
    XorZero(131, 8);
    XorLow(65, 1, 1, 1, 7);
    assert Xor(1, 1, 1) == 0;
    OneByte(0);
    OneByte(1);
  }

  lemma OneByte(value: Byte)
    ensures HashBytes(BASIS, [value])
      == (5740617593494787 * 256 + Xor(131, value, 8)) * 1099511628211 % 0x1_0000_0000_0000_0000
  {
    assert BASIS == 5740617593494787 * 256 + 131;
    HashFirst(BASIS, value, []);
    assert [value] + [] == [value];
  }

  // ---- Each step is a bijection ----

  // PRIME is odd, so it has an inverse modulo 2^64.
  const INVERSE: nat := 14886173955864302971

  lemma UndoProduct(x: nat, prime: nat, inverse: nat, m: nat, k: nat)
    requires m > 0 && x < m && prime * inverse == 1 + k * m
    ensures (x * prime % m) * inverse % m == x
  {
    var q, r := x * prime / m, x * prime % m;
    assert x * prime == q * m + r;
    assert r * inverse == x + (x * k - q * inverse) * m by {
      assert x * prime * inverse == x * (1 + k * m);
      assert (q * m + r) * inverse == q * inverse * m + r * inverse;
      assert x * (1 + k * m) == x + x * k * m;
    }
    RemainderOf(r * inverse, x, x * k - q * inverse, m);
  }

  lemma NegativeTimes(t: int, m: nat)
    requires t < 0
    ensures t * m + m <= 0
  {
  }

  lemma RemainderOf(y: nat, x: nat, t: int, m: nat)
    requires x < m && y == x + t * m
    ensures y % m == x
  {
    if t < 0 {
      NegativeTimes(t, m);
      assert false;
    }
    QuotientRemainder(x, t, m);
  }

  lemma ProductInjective(x: Word, y: Word)
    requires Product(x) == Product(y)
    ensures x == y
  {
    assert PRIME * INVERSE == 1 + 887285111055 * UINT64_LIMIT;
    UndoProduct(x, PRIME, INVERSE, UINT64_LIMIT, 887285111055);
    UndoProduct(y, PRIME, INVERSE, UINT64_LIMIT, 887285111055);
  }

  lemma SameQuotient(q: nat, x: Byte, r: nat, y: Byte)
    requires q * 256 + x == r * 256 + y
    ensures q == r && x == y
  {
  }

  lemma MixedInjective(h: Word, g: Word, a: Byte, b: Byte)
    requires Mixed(h, a) == Mixed(g, b) && (h == g || a == b)
    ensures h == g && a == b
  {
    SameQuotient(h / 256, XorByte(h % 256, a), g / 256, XorByte(g % 256, b));
    XorByteInjective(h % 256, a, g % 256, b);
  }

  /** A step is injective in the running hash and in the byte. */
  lemma StepInjective(h: Word, g: Word, a: Byte, b: Byte)
    requires HashByte(h, a) == HashByte(g, b) && (h == g || a == b)
    ensures h == g && a == b
  {
    ProductInjective(Mixed(h, a), Mixed(g, b));
    MixedInjective(h, g, a, b);
  }

  lemma {:induction false} HashesStayApart(h: Word, g: Word, bytes: seq<Byte>)
    requires h != g
    ensures HashBytes(h, bytes) != HashBytes(g, bytes)
    decreases |bytes|
  {
    if bytes != [] {
      if HashByte(h, bytes[0]) == HashByte(g, bytes[0]) {
        StepInjective(h, g, bytes[0], bytes[0]);
      }
      HashesStayApart(HashByte(h, bytes[0]), HashByte(g, bytes[0]), bytes[1..]);
    }
  }

  lemma {:induction false} HashAppend(h: Word, a: seq<Byte>, b: seq<Byte>)
    ensures HashBytes(h, a + b) == HashBytes(HashBytes(h, a), b)
    decreases |a|
  {
    if a == [] {
      assert a + b == b;
    } else {
      HashAppend(HashByte(h, a[0]), a[1..], b);
      assert (a + b)[1..] == a[1..] + b;
    }
  }

  /** Two byte strings that differ in exactly one position never have the same hash. */
  lemma OneByteChangesHash(h: Word, a: seq<Byte>, b: seq<Byte>)
    requires OneByteApart(a, b)
    ensures HashBytes(h, a) != HashBytes(h, b)
  {
    var i :| 0 <= i < |a| && DifferAt(a, b, i);
    var g := HashBytes(h, a[..i]);
    assert a[..i] == b[..i] && a[i+1..] == b[i+1..];
    HashAround(h, a, i);
    HashAround(h, b, i);
    if HashByte(g, a[i]) == HashByte(g, b[i]) {
      StepInjective(g, g, a[i], b[i]);
    }
    HashesStayApart(HashByte(g, a[i]), HashByte(g, b[i]), a[i+1..]);
  }

  lemma HashAround(h: Word, a: seq<Byte>, i: nat)
    requires i < |a|
    ensures HashBytes(h, a) == HashBytes(HashByte(HashBytes(h, a[..i]), a[i]), a[i+1..])
  {
    HashAppend(h, a[..i], [a[i]] + a[i+1..]);
    HashFirst(HashBytes(h, a[..i]), a[i], a[i+1..]);
    assert a[i..] == [a[i]] + a[i+1..];
    assert a == a[..i] + a[i..];
  }

  lemma HashFirst(h: Word, first: Byte, rest: seq<Byte>)
    ensures HashBytes(h, [first] + rest) == HashBytes(HashByte(h, first), rest)
  {
    assert ([first] + rest)[1..] == rest;
  }

  // ---- Hashing 64-bit words ----

  function HashWord(hash: Word, value: Word): Word { HashBytes(hash, Le(value, 8)) }

  function HashWords(hash: Word, values: seq<nat>): Word { HashBytes(hash, Words(values, 8)) }

  lemma HashWordsAppend(hash: Word, values: seq<nat>, value: Word)
    ensures HashWords(hash, values + [value]) == HashWord(HashWords(hash, values), value)
  {
    WordsAppend(values, [value], 8);
    WordsOne(value, 8);
    HashAppend(hash, Words(values, 8), Le(value, 8));
  }

  /** sidecarHashU64: the eight bytes of a word, lowest first. */
  method HashU64(hash: Word, value: Word) returns (result: Word)
    ensures result == HashWord(hash, value)
  {
    result := hash;
    ghost var bytes := Le(value, 8);
    assert bytes[..0] == [];
    for i := 0 to 8
      invariant result == HashBytes(hash, bytes[..i])
    {
      LeAt(value, 8, i);
      assert bytes[..i+1] == bytes[..i] + [bytes[i]];
      HashAppend(hash, bytes[..i], [bytes[i]]);
      HashFirst(result, bytes[i], []);
      result := HashByte(result, value / Range(i) % 256);
    }
    assert bytes[..8] == bytes;
  }

  method HashAll(hash: Word, values: seq<Word>, ghost before: seq<Word>) returns (result: Word)
    requires hash == HashWords(BASIS, before)
    ensures result == HashWords(BASIS, before + values)
  {
    result := hash;
    assert before + values[..0] == before;
    for i := 0 to |values|
      invariant result == HashWords(BASIS, before + values[..i])
    {
      HashWordsAppend(BASIS, before + values[..i], values[i]);
      assert before + values[..i+1] == before + values[..i] + [values[i]];
      result := HashU64(result, values[i]);
    }
    assert values[..|values|] == values;
  }
}
