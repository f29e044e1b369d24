/** Little-endian byte strings: how integers and arrays of them lie in a binary file. */
module LittleEndian {
  import Arithmetic

  type Byte = b: nat | b < 256

  /** The number of values that k bytes can hold. */
  function Range(k: nat): (r: nat)
    ensures r >= 1
  {
    if k == 0 then 1 else 256 * Range(k - 1)
  }

  function Le(value: nat, k: nat): (bytes: seq<Byte>)
    ensures |bytes| == k
  {
    if k == 0 then [] else [value % 256] + Le(value / 256, k - 1)
  }

  function FromLe(bytes: seq<Byte>): nat {
    if bytes == [] then 0 else bytes[0] + 256 * FromLe(bytes[1..])
  }

  lemma {:induction false} FromLeOfLe(value: nat, k: nat)
    requires value < Range(k)
    ensures FromLe(Le(value, k)) == value
  {
    if k > 0 {
      FromLeOfLe(value / 256, k - 1);
      assert Le(value, k)[1..] == Le(value / 256, k - 1);
    }
  }

  lemma {:induction false} LeOfFromLe(bytes: seq<Byte>)
    ensures FromLe(bytes) < Range(|bytes|) && Le(FromLe(bytes), |bytes|) == bytes
  {
    if bytes != [] {
      LeOfFromLe(bytes[1..]);
      assert FromLe(bytes) % 256 == bytes[0] && FromLe(bytes) / 256 == FromLe(bytes[1..]);
    }
  }

  /** Byte i of a value is what shifting and masking reads. */
  lemma {:induction false} LeAt(value: nat, k: nat, i: nat)
    requires i < k
    ensures Le(value, k)[i] == value / Range(i) % 256
  {
    if i > 0 {
      LeAt(value / 256, k - 1, i - 1);
      DivideTwice(value, Range(i - 1));
    }
  }

  lemma DivideTwice(x: nat, b: nat)
    requires b > 0
    ensures x / 256 / b == x / (256 * b)
  {
    var q := x / 256 / b;
    Arithmetic.DivBounds(x / 256, b);
    assert (256 * b) * q == 256 * (b * q) && (256 * b) * (q + 1) == 256 * (b * q) + 256 * b;
    Arithmetic.DivBelow(x, 256 * b, q + 1);
    Arithmetic.DivAtLeast(x, 256 * b, q);
  }

  // ---- Arrays of k-byte words ----

  ghost predicate Fit(values: seq<nat>, k: nat) {
    forall i | 0 <= i < |values| :: values[i] < Range(k)
  }

  function Words(values: seq<nat>, k: nat): (bytes: seq<Byte>)
    ensures |bytes| == |values| * k
  {
    if values == [] then [] else
      assert (|values| - 1) * k + k == |values| * k;
      Le(values[0], k) + Words(values[1..], k)
  }

  function Unwords(bytes: seq<Byte>, k: nat, n: nat): (values: seq<nat>)
    requires |bytes| == n * k
    ensures |values| == n
    decreases n
  {
    if n == 0 then [] else
      assert (n - 1) * k + k == n * k && 0 <= (n - 1) * k;
      [FromLe(bytes[..k])] + Unwords(bytes[k..], k, n - 1)
  }

  lemma {:induction false} UnwordsOfWords(values: seq<nat>, k: nat)
    requires Fit(values, k)
    ensures Unwords(Words(values, k), k, |values|) == values
  {
    if values != [] {
      var bytes := Words(values, k);
      FromLeOfLe(values[0], k);
      UnwordsOfWords(values[1..], k);
      assert bytes[..k] == Le(values[0], k) && bytes[k..] == Words(values[1..], k);
    }
  }

  lemma {:induction false} WordsOfUnwords(bytes: seq<Byte>, k: nat, n: nat)
    requires |bytes| == n * k
    ensures Words(Unwords(bytes, k, n), k) == bytes && Fit(Unwords(bytes, k, n), k)
    decreases n
  {
    if n > 0 {
      assert (n - 1) * k + k == n * k && 0 <= (n - 1) * k;
      LeOfFromLe(bytes[..k]);
      WordsOfUnwords(bytes[k..], k, n - 1);
      var values := Unwords(bytes, k, n);
      assert values[1..] == Unwords(bytes[k..], k, n - 1);
      assert bytes == bytes[..k] + bytes[k..];
      forall i | 0 <= i < n ensures values[i] < Range(k) {
        if i > 0 {
          assert values[i] == values[1..][i-1];
        }
      }
    }
  }

  lemma {:induction false} WordsAppend(a: seq<nat>, b: seq<nat>, k: nat)
    ensures Words(a + b, k) == Words(a, k) + Words(b, k)
  {
    if a == [] {
      assert a + b == b;
    } else {
      WordsAppend(a[1..], b, k);
      assert (a + b)[1..] == a[1..] + b && (a + b)[0] == a[0];
      Reassociate(Le(a[0], k), Words(a[1..], k), Words(b, k));
    }
  }

  lemma Reassociate(a: seq<Byte>, b: seq<Byte>, c: seq<Byte>)
    ensures a + b + c == a + (b + c)
  {
  }

  lemma WordsOne(value: nat, k: nat)
    ensures Words([value], k) == Le(value, k)
  {
    assert [value][1..] == [];
  }

  /** Word i of an array starts at byte i * k. */
  lemma {:induction false} WordAt(values: seq<nat>, k: nat, i: nat)
    requires i < |values|
    ensures i * k + k <= |values| * k && Words(values, k)[i * k..i * k + k] == Le(values[i], k)
  {
    NextWord(i, |values|, k);
    if i > 0 {
      WordAt(values[1..], k, i - 1);
      assert (i - 1) * k + k == i * k;
    }
  }

  lemma NextWord(i: nat, n: nat, k: nat)
    requires i < n
    ensures 0 <= i * k && i * k + k <= n * k
  {
    Arithmetic.TimesMonotone(k, i + 1, n);
  }

  // ---- Byte strings that differ in exactly one position ----

  ghost predicate OneByteApart(a: seq<Byte>, b: seq<Byte>) {
    |a| == |b| && exists i :: 0 <= i < |a| && DifferAt(a, b, i)
  }

  ghost predicate DifferAt(a: seq<Byte>, b: seq<Byte>, i: nat)
    requires |a| == |b| && i < |a|
  {
    a[i] != b[i] && forall j | 0 <= j < |a| && j != i :: a[j] == b[j]
  }

  /** The difference lies in one of two corresponding parts, and the other parts are equal. */
  lemma OneByteSplits(a: seq<Byte>, b: seq<Byte>, c: seq<Byte>, d: seq<Byte>)
    requires |a| == |c| && OneByteApart(a + b, c + d)
    ensures (OneByteApart(a, c) && b == d) || (a == c && OneByteApart(b, d))
  {
    var i :| 0 <= i < |a + b| && DifferAt(a + b, c + d, i);
    forall j | 0 <= j < |a| ensures j != i ==> a[j] == c[j] {
      assert a[j] == (a + b)[j] && c[j] == (c + d)[j];
    }
    forall j | 0 <= j < |b| ensures |a| + j != i ==> b[j] == d[j] {
      assert b[j] == (a + b)[|a| + j] && d[j] == (c + d)[|a| + j];
    }
    if i < |a| {
      assert DifferAt(a, c, i);
    } else {
      assert DifferAt(b, d, i - |a|);
    }
  }

  lemma OneByteJoins(a: seq<Byte>, b: seq<Byte>, c: seq<Byte>, d: seq<Byte>)
    requires |a| == |c| && ((OneByteApart(a, c) && b == d) || (a == c && OneByteApart(b, d)))
    ensures OneByteApart(a + b, c + d)
  {
    if OneByteApart(a, c) && b == d {
      var i :| 0 <= i < |a| && DifferAt(a, c, i);
      assert DifferAt(a + b, c + d, i);
    } else {
      var i :| 0 <= i < |b| && DifferAt(b, d, i);
      assert DifferAt(a + b, c + d, |a| + i);
    }
  }

  /** Storing words in more bytes keeps a single differing byte a single differing byte. */
  lemma {:induction false} WideningKeepsApart(a: seq<nat>, b: seq<nat>, k: nat, wider: nat)
    requires |a| == |b| && Fit(a, k) && Fit(b, k) && k <= wider && OneByteApart(Words(a, k), Words(b, k))
    ensures OneByteApart(Words(a, wider), Words(b, wider))
  {
    if a != [] {
      OneByteSplits(Le(a[0], k), Words(a[1..], k), Le(b[0], k), Words(b[1..], k));
      if Words(a[1..], k) == Words(b[1..], k) {
        SameWords(a[1..], b[1..], k);
      } else {
        WideningKeepsApart(a[1..], b[1..], k, wider);
      }
      if Le(a[0], k) == Le(b[0], k) {
        FromLeOfLe(a[0], k);
        FromLeOfLe(b[0], k);
      } else {
        LeWider(a[0], k, wider);
        LeWider(b[0], k, wider);
        OneByteJoins(Le(a[0], k), Le(0, wider - k), Le(b[0], k), Le(0, wider - k));
      }
      OneByteJoins(Le(a[0], wider), Words(a[1..], wider), Le(b[0], wider), Words(b[1..], wider));
    }
  }

  lemma SameWords(a: seq<nat>, b: seq<nat>, k: nat)
    requires |a| == |b| && Fit(a, k) && Fit(b, k) && Words(a, k) == Words(b, k)
    ensures a == b
  {
    UnwordsOfWords(a, k);
    UnwordsOfWords(b, k);
  }

  lemma {:induction false} LeWider(value: nat, k: nat, wider: nat)
    requires value < Range(k) && k <= wider
    ensures Le(value, wider) == Le(value, k) + Le(0, wider - k)
    decreases wider
  {
    if k > 0 {
      LeWider(value / 256, k - 1, wider - 1);
    }
  }
}
