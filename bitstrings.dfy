/**
  The bit-string helpers of the S-DES engine: `permute`, `left_shift` and `xor`.
  Bit strings are Python strings, here `string`; the helpers work on any characters,
  and `IsBits` says when a string holds only '0' and '1'.
*/
module BitStrings {
  import opened Wrappers
  import opened Arithmetic

  predicate IsBit(c: char) { c == '0' || c == '1' }

  predicate IsBits(s: string) { forall i :: 0 <= i < |s| ==> IsBit(s[i]) }

  /** Python's `s[:n]` for `n >= 0`. */
  function Take(s: string, n: nat): string
  {
    if n < |s| then s[..n] else s
  }

  /** Python's `s[n:]` for `n >= 0`. */
  function Drop(s: string, n: nat): string
  {
    if n < |s| then s[n..] else []
  }

  /** Python accepts `s[k]` for `-len <= k < len`; a negative `k` counts from the end. */
  predicate InPyRange(k: int, len: nat) { -(len as int) <= k < len }

  /** The position that Python's `s[k]` reads. */
  function PyPos(k: int, len: nat): (j: nat)
    requires InPyRange(k, len)
    ensures j < len
    ensures 0 <= k ==> j == k
    ensures k < 0 ==> j == len + k
  {
    if 0 <= k then k else len + k
  }

  /** Every entry of `table` is a 1-based position of a string of length `len`. */
  predicate Indexes(table: seq<int>, len: nat) {
    forall i :: 0 <= i < |table| ==> 1 <= table[i] <= len
  }

  /**
    `permute(bits, table)`: the string `bits[t - 1]` for each entry `t` of `table`, read
    with Python's indexing, so that an entry 0 reads the last character. The only
    exception it raises is `IndexError`.
  */
  function Permute(bits: string, table: seq<int>): (r: Result<string>)
    ensures r.Err? ==> r.error == IndexError
    ensures r.Ok? ==> |r.value| == |table|
  {
    if table == [] then
      Ok("")
    else if !InPyRange(table[0] - 1, |bits|) then
      Err(IndexError)
    else
      var rest :- Permute(bits, table[1..]);
      Ok([bits[PyPos(table[0] - 1, |bits|)]] + rest)
  }

  /** `permute` raises exactly when some entry of the table is outside Python's range. */
  lemma {:induction false} PermuteSucceeds(bits: string, table: seq<int>)
    ensures Permute(bits, table).Ok? <==> forall i :: 0 <= i < |table| ==> InPyRange(table[i] - 1, |bits|)
  {
    if table != [] {
      PermuteSucceeds(bits, table[1..]);
      assert forall i :: 1 <= i < |table| ==> table[i] == table[1..][i - 1];
    }
  }

  /** Output position `i` of a permutation holds the input character that entry `i` names. */
  lemma {:induction false} PermuteValues(bits: string, table: seq<int>)
    requires Permute(bits, table).Ok?
    ensures forall i :: 0 <= i < |table| ==>
      (InPyRange(table[i] - 1, |bits|) && Permute(bits, table).value[i] == bits[PyPos(table[i] - 1, |bits|)])
  {
    if table != [] {
      assert InPyRange(table[0] - 1, |bits|);
      PermuteValues(bits, table[1..]);
      var r := Permute(bits, table).value;
      forall i | 0 < i < |table|
        ensures InPyRange(table[i] - 1, |bits|) && r[i] == bits[PyPos(table[i] - 1, |bits|)]
      {
        assert table[i] == table[1..][i - 1];
      }
    }
  }

  /** Permuting by a concatenated table concatenates the two permutations. */
  lemma {:induction false} PermuteAppend(bits: string, a: seq<int>, b: seq<int>)
    ensures Permute(bits, a + b).Ok? <==> Permute(bits, a).Ok? && Permute(bits, b).Ok?
    ensures Permute(bits, a + b).Ok? ==> Permute(bits, a + b).value == Permute(bits, a).value + Permute(bits, b).value
  {
    if a != [] {
      assert (a + b)[1..] == a[1..] + b;
      PermuteAppend(bits, a[1..], b);
    } else {
      assert a + b == b;
    }
  }

  /** With every entry a 1-based position of `bits`, `permute` succeeds and reads `bits[t - 1]`. */
  lemma PermuteInRange(bits: string, table: seq<int>)
    requires Indexes(table, |bits|)
    ensures Permute(bits, table).Ok?
    ensures forall i :: 0 <= i < |table| ==> Permute(bits, table).value[i] == bits[table[i] - 1]
  {
    PermuteSucceeds(bits, table);
    PermuteValues(bits, table);
  }

  /**
    Entries 0, -1, ..., 1 - len do not raise: Python's `bits[k - 1]` counts from the end,
    so entry 0 reads the last character and entry 1 - len the first.
  */
  lemma PermuteWraps(bits: string, k: int)
    requires 1 - |bits| <= k <= 0
    ensures Permute(bits, [k]) == Ok([bits[|bits| - 1 + k]])
  {
    assert [k][1..] == [] && Permute(bits, []) == Ok("");
    assert InPyRange(k - 1, |bits|) && PyPos(k - 1, |bits|) == |bits| - 1 + k;
    var c := bits[|bits| - 1 + k];
    assert [c] + "" == [c];
  }

  /** A table entry 0 reads the last character of any non-empty input. */
  lemma PermuteZeroEntry(bits: string)
    requires |bits| > 0
    ensures Permute(bits, [0]) == Ok([bits[|bits| - 1]])
  {
    PermuteWraps(bits, 0);
  }

  /** Permuting a bit string gives a bit string. */
  lemma PermuteBits(bits: string, table: seq<int>)
    requires Permute(bits, table).Ok? && IsBits(bits)
    ensures IsBits(Permute(bits, table).value)
  {
    PermuteValues(bits, table);
  }

  /** `u` undoes `t`: permuting by `t` and then by `u` gives back the input. */
  predicate Undoes(t: seq<int>, u: seq<int>) {
    && Indexes(t, |t|) && Indexes(u, |u|) && |t| == |u|
    && forall i :: 0 <= i < |u| ==> t[u[i] - 1] == i + 1
  }

  /** `t` and `u` are permutation tables that are each other's inverse (IP and IP-1). */
  predicate IsInversePair(t: seq<int>, u: seq<int>) {
    Undoes(t, u) && Undoes(u, t)
  }

  lemma PermuteUndone(s: string, t: seq<int>, u: seq<int>)
    requires Undoes(t, u) && |s| == |t|
    ensures Permute(s, t).Ok? && Permute(Permute(s, t).value, u) == Ok(s)
  {
    PermuteInRange(s, t);
    var y := Permute(s, t);
    PermuteInRange(y.value, u);
    var z := Permute(y.value, u);
    forall i | 0 <= i < |s|
      ensures z.value[i] == s[i]
    {
      var j := u[i] - 1;
      assert z.value[i] == y.value[j];
      assert y.value[j] == s[t[j] - 1];
    }
    assert z.value == s;
  }

  /** `left_shift(bits, n)`: Python's `bits[n:] + bits[:n]`. */
  function LeftShift(bits: string, n: nat): (r: string)
    ensures |r| == |bits|
  {
    Drop(bits, n) + Take(bits, n)
  }

  /** For `n` up to the length, `left_shift` rotates left by `n`; past it, the slices leave `bits` as is. */
  lemma LeftShiftRotates(bits: string, n: nat)
    ensures n <= |bits| ==> LeftShift(bits, n) == Rotated(bits, n)
    ensures |bits| <= n ==> LeftShift(bits, n) == bits
  {
    if n <= |bits| {
      RotationBySlices(bits, n);
    }
  }

  /** `left_shift` rearranges the characters and loses none. */
  lemma LeftShiftPreserves(bits: string, n: nat)
    ensures multiset(LeftShift(bits, n)) == multiset(bits)
    ensures IsBits(bits) ==> IsBits(LeftShift(bits, n))
  {
    var k := if n < |bits| then n else |bits|;
    assert bits == bits[..k] + bits[k..];
    assert LeftShift(bits, n) == bits[k..] + bits[..k];
  }

  /** `s` rotated left by `k` places. */
  function Rotated(s: string, k: nat): (r: string)
    ensures |r| == |s|
  {
    seq(|s|, i requires 0 <= i < |s| => s[(i + k) % |s|])
  }

  lemma RotationBySlices(s: string, k: nat)
    requires k <= |s|
    ensures s[k..] + s[..k] == Rotated(s, k)
  {
    var r := s[k..] + s[..k];
    forall i | 0 <= i < |s|
      ensures r[i] == s[(i + k) % |s|]
    {
      ModBelowTwice(i + k, |s|);
    }
  }

  /** A shift by 1 followed by a shift by 2 (the key schedule's halves) is a rotation by 3. */
  lemma LeftShiftThenShift(s: string)
    ensures LeftShift(LeftShift(s, 1), 2) == Rotated(s, 3)
  {
    var a := LeftShift(s, 1);
    LeftShiftRotates(s, 1);
    LeftShiftRotates(a, 2);
    if |s| >= 2 {
      RotatedTwice(s, 1, 2);
    } else if |s| == 1 {
      RotatedSingle(s, 1);
      RotatedSingle(s, 3);
    }
  }

  lemma RotatedSingle(s: string, k: nat)
    requires |s| == 1
    ensures Rotated(s, k) == s
  {
    DivModUnique(k, 1, k, 0);
    assert Rotated(s, k)[0] == s[0];
  }

  /** Rotating by `j` and then by `k` is rotating by `j + k`. */
  lemma RotatedTwice(s: string, j: nat, k: nat)
    ensures Rotated(Rotated(s, j), k) == Rotated(s, j + k)
  {
    forall i | 0 <= i < |s|
      ensures Rotated(Rotated(s, j), k)[i] == Rotated(s, j + k)[i]
    {
      RotatedTwiceAt(s, j, k, i);
    }
  }

  lemma RotatedTwiceAt(s: string, j: nat, k: nat, i: nat)
    requires i < |s|
    ensures Rotated(Rotated(s, j), k)[i] == Rotated(s, j + k)[i]
  {
    var m := |s|;
    var x := (i + k) % m;
    assert Rotated(Rotated(s, j), k)[i] == Rotated(s, j)[x] == s[(x + j) % m];
    ModAddLeft(i + k, j, m);
    assert (i + k) + j == i + (j + k);
  }

  /** One character of `xor`: '0' where the inputs agree, '1' where they differ. */
  function XorChar(x: char, y: char): (c: char)
    ensures IsBit(c) && (c == '1' <==> x != y)
  {
    if x == y then '0' else '1'
  }

  /** The string that `xor(a, b)` builds when `b` is at least as long as `a`. */
  function XorBits(a: string, b: string): (r: string)
    requires |a| <= |b|
    ensures |r| == |a| && IsBits(r)
  {
    if a == [] then
      []
    else
      [XorChar(a[0], b[0])] + XorBits(a[1..], b[1..])
  }

  /** Position `i` of the XOR is '1' exactly where the inputs differ. */
  lemma {:induction false} XorBitsValues(a: string, b: string)
    requires |a| <= |b|
    ensures forall i :: 0 <= i < |a| ==> (XorBits(a, b)[i] == '1' <==> a[i] != b[i])
  {
    if a != [] {
      XorBitsValues(a[1..], b[1..]);
      var r := XorBits(a, b);
      forall i | 0 < i < |a|
        ensures r[i] == '1' <==> a[i] != b[i]
      {
        assert a[i] == a[1..][i - 1] && b[i] == b[1..][i - 1];
      }
    }
  }

  /** What `xor(a, b)` returns or raises: a `b` shorter than `a` runs off its end. */
  function XorOf(a: string, b: string): (r: Result<string>)
    ensures r.Ok? ==> |r.value| == |a| && IsBits(r.value)
  {
    if |a| <= |b| then Ok(XorBits(a, b)) else Err(IndexError)
  }

  /** `xor(a, b)`: the loop that builds `out` one character at a time. */
  method Xor(a: string, b: string) returns (r: Result<string>)
    ensures r == XorOf(a, b)
  {
    var out := "";
    var i := 0;
    while i < |a|
      invariant i <= |a| && i <= |b|
      invariant |out| == i && IsBits(out)
      invariant forall k :: 0 <= k < i ==> (out[k] == '1' <==> a[k] != b[k])
    {
      if i >= |b| {
        return Err(IndexError);
      }
      out := out + [if a[i] == b[i] then '0' else '1'];
      i := i + 1;
    }
    XorBitsUnique(a, b, out);
    r := Ok(out);
  }

  /** A bit string that agrees with `a` exactly where `b` is '0' is `XorBits(a, b)`. */
  lemma XorBitsUnique(a: string, b: string, out: string)
    requires |a| <= |b| && |out| == |a| && IsBits(out)
    requires forall k :: 0 <= k < |a| ==> (out[k] == '1' <==> a[k] != b[k])
    ensures out == XorBits(a, b)
  {
    var x := XorBits(a, b);
    XorBitsValues(a, b);
    forall k | 0 <= k < |a|
      ensures out[k] == x[k]
    {
      assert IsBit(out[k]) && IsBit(x[k]);
    }
  }

  /** XOR with the same bit string twice gives back the input. */
  lemma XorTwice(a: string, b: string)
    requires |a| <= |b| && IsBits(a) && IsBits(b)
    ensures XorBits(XorBits(a, b), b) == a
  {
    var x := XorBits(a, b);
    var y := XorBits(x, b);
    XorBitsValues(a, b);
    XorBitsValues(x, b);
    forall k | 0 <= k < |a|
      ensures y[k] == a[k]
    {
      assert IsBit(a[k]) && IsBit(b[k]) && IsBit(x[k]) && IsBit(y[k]);
    }
  }
}
