// The example hashes and the insert/find/erase driver of examples/main.cpp.
//
// Every uint64_t operation of the source reduces modulo 2^64 (U64). The
// characters of a std::string are signed chars, promoted to int and then
// converted to uint64_t when multiplied by a uint64_t.
module ExampleMain {
  import opened Common
  import opened Chains
  import opened HashTable

  /** m: the modulus of the hashes, 2^64 - 59. */
  const M: int := 18446744073709551557

  /** largePrime = 1e9 + 7. */
  const LargePrime: int := 1000000007

  /** A char of the key (signed, as on the usual targets). */
  newtype CChar = c: int | -128 <= c < 128

  /** int32_t, the key type of the driver's table. */
  newtype Int32 = x: int | -0x8000_0000 <= x < 0x8000_0000

  /** b^n. */
  function Pow(b: int, n: nat): int
  {
    if n == 0 then 1 else b * Pow(b, n - 1)
  }

  // ---------------------------------------------------------------------
  // Arithmetic modulo M

  lemma ShiftMod(x: int, k: int)
    ensures (x + k * M) % M == x % M
  {
  }

  lemma MulModLeft(a: int, b: int)
    ensures (a % M) * b % M == a * b % M
  {
    var q := a / M;
    assert a == q * M + a % M;
    assert a * b == (q * b) * M + (a % M) * b;
    ShiftMod((a % M) * b, q * b);
  }

  /** Congruent factors give congruent products. */
  lemma MulCongruent(a: int, x: int, y: int)
    requires x % M == y % M
    ensures a * x % M == a * y % M
  {
    MulModLeft(x, a);
    MulModLeft(y, a);
    assert x * a == a * x && y * a == a * y;
  }

  lemma AddModLeft(a: int, b: int)
    ensures (a % M + b) % M == (a + b) % M
  {
    ShiftMod(a % M + b, a / M);
  }

  lemma {:induction false} PowAdd(b: int, m: nat, n: nat)
    ensures Pow(b, m + n) == Pow(b, m) * Pow(b, n)
  {
    if n > 0 {
      PowAdd(b, m, n - 1);
      assert Pow(b, m + n) == b * Pow(b, m + n - 1);
    }
  }

  lemma {:induction false} PowSquare(b: int, n: nat)
    ensures Pow(b * b, n) == Pow(b, 2 * n)
  {
    if n > 0 {
      PowSquare(b, n - 1);
      PowAdd(b, 2, 2 * n - 2);
      assert Pow(b, 2) == b * b by {
        assert Pow(b, 1) == b;
      }
      assert 2 + (2 * n - 2) == 2 * n;
    }
  }

  /** Reducing the base modulo M does not change the power modulo M. */
  lemma {:induction false} PowMod(b: int, n: nat)
    ensures Pow(b % M, n) % M == Pow(b, n) % M
  {
    if n > 0 {
      PowMod(b, n - 1);
      calc {
        Pow(b % M, n) % M;
        (b % M) * Pow(b % M, n - 1) % M;
        { MulModLeft(Pow(b % M, n - 1), b % M); }
        (Pow(b % M, n - 1) % M) * (b % M) % M;
        (Pow(b, n - 1) % M) * (b % M) % M;
        { MulModLeft(Pow(b, n - 1), b % M); }
        Pow(b, n - 1) * (b % M) % M;
        { MulModLeft(b, Pow(b, n - 1)); }
        b * Pow(b, n - 1) % M;
      }
    }
  }

  // ---------------------------------------------------------------------
  // bin_pow

  /** The value bin_pow's loop returns from the state (res, pBase, pPow), as
      written: `res *= pBase` and `pBase *= pBase` wrap modulo 2^64 before
      they are reduced modulo m. */
  function BinPowLoop(res: nat, base: nat, pow: nat): (r: nat)
    requires res < M
    ensures r < M
    ensures pow == 0 ==> r == res
    decreases pow
  {
    if pow == 0 then res
    else
      var res' := if pow % 2 == 1 then U64(res * base) % M else res;
      BinPowLoop(res', U64(base * base) % M, pow / 2)
  }

  /** bin_pow as written. */
  method BinPow(base: nat, pow: nat) returns (r: nat)
    requires base < TWO64 && pow < TWO64
    ensures r == BinPowLoop(1, base, pow)
    ensures r < M
    ensures pow == 0 ==> r == 1
  {
    var res: nat, b: nat, p: nat := 1, base, pow;
    while p > 0
      invariant res < M
      invariant BinPowLoop(res, b, p) == BinPowLoop(1, base, pow)
    {
      if p % 2 == 1 {
        res := U64(res * b);
        res := res % M;
      }
      p := p / 2;
      b := U64(b * b);
      b := b % M;
    }
    r := res;
  }

  /** As written, bin_pow(2^32, 2) is 0, while (2^32)^2 mod m is 59: squaring
      the base overflows uint64_t. */
  lemma BinPowOverflows()
    ensures BinPowLoop(1, 0x1_0000_0000, 2) == 0
    ensures Pow(0x1_0000_0000, 2) % M == 59
  {
    assert U64(0x1_0000_0000 * 0x1_0000_0000) == 0;
    assert BinPowLoop(1, 0x1_0000_0000, 2) == BinPowLoop(1, 0, 1);
    assert BinPowLoop(1, 0, 1) == BinPowLoop(0, 0, 0);
    assert Pow(0x1_0000_0000, 2) == 0x1_0000_0000 * Pow(0x1_0000_0000, 1);
  }

  /** bin_pow with each product formed exactly (as in a 128-bit intermediate)
      before its reduction modulo m: modular exponentiation. */
  method ModPow(base: nat, pow: nat) returns (r: nat)
    ensures r == Pow(base, pow) % M
  {
    var res, b, p := 1, base, pow;
    while p > 0
      invariant 0 <= res < M
      invariant res * Pow(b, p) % M == Pow(base, pow) % M
    {
      ghost var res0, b0 := res, b;
      if p % 2 == 1 {
        res := res * b % M;
        StepOdd(res0, b0, p / 2);
      } else {
        StepEven(res0, b0, p / 2);
      }
      p := p / 2;
      b := b * b % M;
    }
    r := res;
  }

  lemma Squared(r: int, b: int, h: nat)
    ensures r * Pow(b * b % M, h) % M == r * Pow(b, 2 * h) % M
  {
    PowMod(b * b, h);
    MulCongruent(r, Pow(b * b % M, h), Pow(b * b, h));
    PowSquare(b, h);
  }

  lemma StepEven(res: int, b: int, h: nat)
    ensures res * Pow(b * b % M, h) % M == res * Pow(b, 2 * h) % M
  {
    Squared(res, b, h);
  }

  lemma StepOdd(res: int, b: int, h: nat)
    ensures (res * b % M) * Pow(b * b % M, h) % M == res * Pow(b, 2 * h + 1) % M
  {
    var y := Pow(b, 2 * h);
    Squared(res * b % M, b, h);
    MulModLeft(res * b, y);
    assert res * b * y == res * (b * y);
    assert Pow(b, 2 * h + 1) == b * y;
  }

  // ---------------------------------------------------------------------
  // string_hash_func64, string_hash_func16

  /** The pair (res, coeff) of string_hash_func64's loop after the characters
      of s, as written: `pKey[i] * coeff`, `res + …` and `coeff * largePrime`
      wrap modulo 2^64 before they are reduced modulo m. */
  function HashState(s: seq<CChar>): (st: (nat, nat))
    ensures st.0 < M && st.1 < M
    ensures s == [] ==> st == (0, 1)
  {
    if s == [] then (0, 1)
    else
      var (res, coeff) := HashState(s[..|s| - 1]);
      (U64(res + U64(s[|s| - 1] as int * coeff)) % M, U64(coeff * LargePrime) % M)
  }

  /** string_hash_func64 as written. */
  method StringHash64(key: seq<CChar>) returns (r: nat)
    ensures r == HashState(key).0
    ensures r < M
    ensures key == [] ==> r == 0
  {
    var res, coeff := 0, 1;
    for i := 0 to |key|
      invariant (res, coeff) == HashState(key[..i])
    {
      assert key[..i + 1][..i] == key[..i];
      res := U64(res + U64(key[i] as int * coeff));
      res := res % M;
      coeff := U64(coeff * LargePrime) % M;
    }
    assert key[..|key|] == key;
    r := res;
  }

  /** The polynomial the hash stands for: the sum of each character's
      uint64_t value times largePrime to the power of its index. */
  function PolySum(s: seq<CChar>): int
  {
    if s == [] then 0 else PolySum(s[..|s| - 1]) + U64(s[|s| - 1] as int) * Pow(LargePrime, |s| - 1)
  }

  /** As written, the hash of "aaa" is not the polynomial hash modulo m:
      97 * largePrime^2 overflows uint64_t. */
  lemma StringHashOverflows()
    ensures HashState([97, 97, 97]).0 == 4766281086452247449
    ensures PolySum([97, 97, 97]) % M == 4766281086452247744
  {
    HashOfAaa();
    PolyOfAaa();
  }

  lemma HashOfAaa()
    ensures HashState([97, 97, 97]).0 == 4766281086452247449
  {
    var s: seq<CChar> := [97, 97, 97];
    assert s[..2] == [97, 97] && s[..2][..1] == [97] && s[..2][..1][..0] == [];
    assert HashState([97]) == (97, 1000000007);
    assert U64(97 * 1000000007) == 97000000679;
    assert U64(1000000007 * LargePrime) == 1000000014000000049;
    assert HashState([97, 97]) == (97000000776, 1000000014000000049);
    // 97 * largePrime^2 = 5 * 2^64 + 4766280989452246673
    assert U64(97 * 1000000014000000049) == 4766280989452246673;
    assert HashState(s).0 == U64(97000000776 + 4766280989452246673) % M;
  }

  lemma PolyOfAaa()
    ensures PolySum([97, 97, 97]) % M == 4766281086452247744
  {
    var s: seq<CChar> := [97, 97, 97];
    assert s[..2] == [97, 97] && s[..2][..1] == [97] && s[..2][..1][..0] == [];
    assert Pow(LargePrime, 1) == LargePrime;
    assert Pow(LargePrime, 2) == 1000000014000000049;
    assert PolySum([97]) == 97;
    assert PolySum([97, 97]) == 97000000776;
    assert PolySum(s) == 97000001455000005529;
    assert 97000001455000005529 == 5 * M + 4766281086452247744;
  }

  /** string_hash_func64 with each product formed exactly before its
      reduction modulo m: the polynomial hash modulo m. */
  method StringHash64Exact(key: seq<CChar>) returns (r: nat)
    ensures r == PolySum(key) % M
  {
    var res, coeff := 0, 1;
    for i := 0 to |key|
      invariant 0 <= res < M && 0 <= coeff < M
      invariant res == PolySum(key[..i]) % M
      invariant coeff == Pow(LargePrime, i) % M
    {
      assert key[..i + 1][..i] == key[..i];
      var c := U64(key[i] as int);
      ghost var res0, coeff0 := res, coeff;
      res := (res + c * coeff) % M;
      coeff := coeff * LargePrime % M;
      assert res == PolySum(key[..i + 1]) % M by {
        MulCongruent(c, coeff0, Pow(LargePrime, i));
        AddModLeft(PolySum(key[..i]), c * Pow(LargePrime, i));
        AddModLeft(c * Pow(LargePrime, i), res0);
        AddModLeft(c * coeff0, res0);
      }
      assert coeff == Pow(LargePrime, i + 1) % M by {
        MulModLeft(Pow(LargePrime, i), LargePrime);
        assert Pow(LargePrime, i) * LargePrime == Pow(LargePrime, i + 1);
      }
    }
    assert key[..|key|] == key;
    r := res;
  }

  /** string_hash_func16: the low 16 bits of string_hash_func64. */
  method StringHash16(key: seq<CChar>) returns (r: nat)
    ensures r < 0x1_0000
    ensures (HashState(key).0 - r) % 0x1_0000 == 0
  {
    var h := StringHash64(key);
    r := h % 0x1_0000;
  }

  // ---------------------------------------------------------------------
  // id and the driver

  /** The bit pattern of an int64_t, read as an unsigned number. */
  function TwosComplement64(i: int): nat
    requires -0x8000_0000_0000_0000 <= i < 0x8000_0000_0000_0000
  {
    if i < 0 then i + TWO64 else i
  }

  /** id: the uint16_t stored first in the int64_t key, on a little-endian
      target the low 16 bits of its two's-complement pattern. */
  function Id(i: int): (r: nat)
    requires -0x8000_0000_0000_0000 <= i < 0x8000_0000_0000_0000
    ensures r == TwosComplement64(i) % 0x1_0000
  {
    i % 0x1_0000
  }

  /** The hash of the driver's table: id of the int32_t key widened to int64_t. */
  function IdHash(k: Int32): nat
  {
    Id(k as int)
  }

  /** The driver: with hash id, each key in [-100000, 100000) is inserted,
      then found, then erased, and no step reports a failure. */
  method Driver() returns (insertFailures: nat, findFailures: nat, eraseFailures: nat, finalSize: nat)
    ensures insertFailures == 0 && findFailures == 0 && eraseFailures == 0 && finalSize == 0
  {
    var table := new AgHashTable<Int32>(IdHash, 2);
    assert table.Keys() == {};
    insertFailures := InsertRange(table, -100_000, 100_000);
    findFailures := FindRange(table, -100_000, 100_000);
    eraseFailures := EraseRange(table, -100_000, 100_000);
    finalSize := table.Size();
  }

  /** The insert loop: every insert of a key not yet in the table succeeds. */
  method InsertRange(table: AgHashTable<Int32>, lo: int, hi: int) returns (failures: nat)
    requires table.Valid() && table.size == 0 && table.Keys() == {}
    requires -0x8000_0000 <= lo <= hi <= 0x8000_0000
    modifies table, table.Repr
    ensures table.Valid() && fresh(table.Repr - old(table.Repr))
    ensures table.size == hi - lo && failures == 0
    ensures forall k: Int32 :: k in table.Keys() <==> lo <= k as int < hi
  {
    failures := 0;
    var i := lo;
    while i < hi
      invariant lo <= i <= hi
      invariant table.Valid() && fresh(table.Repr - old(table.Repr))
      invariant table.size == i - lo && failures == 0
      invariant forall k: Int32 :: k in table.Keys() <==> lo <= k as int < i
    {
      var ok := InsertNew(table, lo, i);
      failures := failures + if ok then 0 else 1;
      i := i + 1;
    }
  }

  /** One step of the insert loop: key i is not yet in the table, so it is inserted. */
  method InsertNew(table: AgHashTable<Int32>, lo: int, i: int) returns (ok: bool)
    requires table.Valid() && -0x8000_0000 <= lo <= i < 0x8000_0000
    requires forall k: Int32 :: k in table.Keys() <==> lo <= k as int < i
    modifies table, table.Repr
    ensures ok && table.Valid() && fresh(table.Repr - old(table.Repr))
    ensures table.size == old(table.size) + 1
    ensures forall k: Int32 :: k in table.Keys() <==> lo <= k as int < i + 1
  {
    var key := i as Int32;
    table.KeyAddress(key);
    table.KeysAreInTheirChains(key);
    ghost var t := table.chains;
    ok := table.Insert(key);
    KeysOfRelinkSnoc(t, table.BucketOf(key), table.SlotOf(key), key);
  }

  /** The find loop: every key of the range is found. */
  method FindRange(table: AgHashTable<Int32>, lo: int, hi: int) returns (failures: nat)
    requires table.Valid()
    requires -0x8000_0000 <= lo <= hi <= 0x8000_0000
    requires forall k: Int32 :: lo <= k as int < hi ==> k in table.Keys()
    ensures failures == 0
  {
    failures := 0;
    for i := lo to hi
      invariant failures == 0
    {
      var found := table.Find(i as Int32);
      failures := failures + if found then 0 else 1;
    }
  }

  /** The erase loop: every erase of a key in the table succeeds, and the
      table ends empty. */
  method EraseRange(table: AgHashTable<Int32>, lo: int, hi: int) returns (failures: nat)
    requires table.Valid() && table.size == hi - lo
    requires -0x8000_0000 <= lo <= hi <= 0x8000_0000
    requires forall k: Int32 :: k in table.Keys() <==> lo <= k as int < hi
    modifies table, table.Repr
    ensures table.Valid() && table.size == 0 && failures == 0
    ensures table.Keys() == {}
  {
    failures := 0;
    var i := lo;
    while i < hi
      invariant lo <= i <= hi
      invariant table.Valid() && table.Repr == old(table.Repr)
      invariant table.size == hi - i && failures == 0
      invariant forall k: Int32 :: k in table.Keys() <==> i <= k as int < hi
    {
      var key := i as Int32;
      table.KeysAreInTheirChains(key);
      var ok := table.Erase(key);
      failures := failures + if ok then 0 else 1;
      i := i + 1;
    }
  }
}
